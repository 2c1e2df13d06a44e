/** Decoding with exact byte ranges: the windowed recovering decoder with carry,
    proved equal to the one-pass form for every window size. */
module DecodeUnits {
  import opened Basics
  import opened Codecs

  const MAX_DECODED_CHARACTERS: nat := 1_000_000
  const MAX_INVALID_SPANS: nat := 1024
  const RECOVERY_FEED_BYTES: nat := 64 * 1024
  const OPAQUE_CHAR: char := '\U{FFFD}'

  datatype DecodeCode = DecodeError | InvalidSpanAscii | RecoveryBoundExceeded

  /** One decoded unit: its character, its source bytes and whether those bytes
      are an undecodable span. */
  datatype Unit = Unit(ch: char, bytes: seq<Byte>, isOpaque: bool)

  datatype Decoding = Decoded(units: seq<Unit>) | Failed(code: DecodeCode)

  function Bytes(us: seq<Unit>): seq<Byte> {
    if us == [] then [] else us[0].bytes + Bytes(us[1..])
  }

  function Text(us: seq<Unit>): (t: string)
    ensures |t| == |us|
    ensures forall i :: 0 <= i < |us| ==> t[i] == us[i].ch
  {
    seq(|us|, i requires 0 <= i < |us| => us[i].ch)
  }

  lemma {:induction false} BytesAppend(a: seq<Unit>, b: seq<Unit>)
    ensures Bytes(a + b) == Bytes(a) + Bytes(b)
  {
    if a == [] {
      assert a + b == b;
    } else {
      assert (a + b)[1..] == a[1..] + b;
      BytesAppend(a[1..], b);
    }
  }

  /** The units of `text` when its per-character encodings tile `seg` exactly. */
  function Tile(c: Codec, text: string, seg: seq<Byte>): (r: Option<seq<Unit>>)
    ensures r.Some? ==> |r.value| == |text| && Bytes(r.value) == seg
    ensures r.Some? ==> forall u :: u in r.value ==> !u.isOpaque && c.encode(u.ch) == Some(u.bytes)
    ensures r.Some? ==> Text(r.value) == text
  {
    if text == "" then
      if seg == [] then Some([]) else None
    else
      match c.encode(text[0])
      case None => None
      case Some(p) =>
        if p <= seg then
          match Tile(c, text[1..], seg[|p|..])
          case None => None
          case Some(us) => Some([Unit(text[0], p, false)] + us)
        else None
  }

  /** `emit`: refuse before mapping when the running count would pass the limit. */
  function Emit(c: Codec, count: nat, text: string, seg: seq<Byte>): Option<seq<Unit>> {
    if count + |text| > MAX_DECODED_CHARACTERS then None else Tile(c, text, seg)
  }

  function Then(us: seq<Unit>, d: Decoding): Decoding {
    match d
    case Decoded(more) => Decoded(us + more)
    case Failed(_) => d
  }

  predicate AllNonAscii(span: seq<Byte>) {
    span != [] && forall b :: b in span ==> b >= 0x80
  }

  /** The text of bytes already known to decode cleanly. */
  function CleanText(c: Codec, b: seq<Byte>): string {
    var s := c.scan(b);
    if s.Clean? then s.text else ""
  }

  function Done(r: Option<seq<Unit>>): Decoding {
    if r.None? then Failed(DecodeError) else Decoded(r.value)
  }

  function Len(r: Option<seq<Unit>>): nat {
    if r.None? then 0 else |r.value|
  }

  /** One error span after `count` units and `spans` earlier spans: `pre` is what
      came before it in this stretch and `rest` what follows it. */
  function Step(pre: Option<seq<Unit>>, span: seq<Byte>, count: nat, spans: nat, rest: Decoding): Decoding {
    if pre.None? then Failed(DecodeError)
    else if !AllNonAscii(span) then Failed(InvalidSpanAscii)
    else if spans >= MAX_INVALID_SPANS then Failed(RecoveryBoundExceeded)
    else if count + |pre.value| + 1 > MAX_DECODED_CHARACTERS then Failed(DecodeError)
    else Then(pre.value + [Unit(OPAQUE_CHAR, span, true)], rest)
  }

  /** One-pass recovering decode of `body` after `count` units and `spans` bad spans. */
  ghost function Recover(c: Codec, body: seq<Byte>, count: nat, spans: nat): Decoding
    requires Lawful(c)
    decreases |body|
  {
    match c.scan(body)
    case Clean(t) => Done(Emit(c, count, t, body))
    case Bad(s, e) =>
      ErrorBounds(c, body);
      var pre := Emit(c, count, CleanText(c, body[..s]), body[..s]);
      Step(pre, body[s..e], count, spans, Recover(c, body[e..], count + Len(pre) + 1, spans + 1))
  }

  lemma RecoverClean(c: Codec, body: seq<Byte>, count: nat, spans: nat)
    requires Lawful(c) && c.scan(body).Clean?
    ensures Recover(c, body, count, spans) == Done(Emit(c, count, c.scan(body).text, body))
  {
    hide Lawful;
  }

  lemma RecoverError(c: Codec, body: seq<Byte>, s: nat, e: nat, count: nat, spans: nat)
    requires Lawful(c) && c.scan(body) == Bad(s, e)
    ensures s < e <= |body| && c.scan(body[..s]).Clean?
    ensures var pre := Emit(c, count, c.scan(body[..s]).text, body[..s]);
            Recover(c, body, count, spans) ==
            Step(pre, body[s..e], count, spans, Recover(c, body[e..], count + Len(pre) + 1, spans + 1))
  {
    hide Lawful, Emit, Step;
    ErrorBounds(c, body);
  }

  lemma EncodingScans(c: Codec, us: seq<Unit>)
    requires Lawful(c)
    requires forall u :: u in us ==> c.encode(u.ch) == Some(u.bytes)
    ensures c.scan(Bytes(us)) == Clean(Text(us))
  {
    hide Lawful;
    if us != [] {
      hide Text;
      EncodingScans(c, us[1..]);
      EncodingDecodes(c, us[0].ch, us[0].bytes);
      Restarts(c, us[0].bytes, Bytes(us[1..]));
      TextFront(us);
    } else {
      OnlyEmptyIsEmpty(c, []);
      assert Text(us) == "";
    }
  }

  lemma {:induction false} TileOfUnits(c: Codec, us: seq<Unit>)
    requires forall u :: u in us ==> !u.isOpaque && c.encode(u.ch) == Some(u.bytes)
    ensures Tile(c, Text(us), Bytes(us)) == Some(us)
  {
    if us != [] {
      TileOfUnits(c, us[1..]);
      hide Tile;
      TileFront(c, us[0], us[1..], Text(us[1..]), Bytes(us[1..]));
      TextFront(us);
    }
  }

  lemma TextFront(us: seq<Unit>)
    requires us != []
    ensures Text(us) == [us[0].ch] + Text(us[1..]) && [us[0]] + us[1..] == us
  {
  }

  lemma TileFront(c: Codec, u: Unit, us: seq<Unit>, text: string, seg: seq<Byte>)
    requires !u.isOpaque && c.encode(u.ch) == Some(u.bytes) && Tile(c, text, seg) == Some(us)
    ensures Tile(c, [u.ch] + text, u.bytes + seg) == Some([u] + us)
  {
    hide Bytes, Text;
    assert ([u.ch] + text)[1..] == text && (u.bytes + seg)[|u.bytes|..] == seg;
  }

  lemma EmptyTail(t: string, n: nat, s: Scan)
    requires Follow(t, n, s) == Clean(t)
    ensures s == Clean("")
  {
    if s.Clean? {
      assert |t + s.text| == |t| + |s.text|;
    }
  }

  /** Encodings of the characters of clean bytes cannot tile a different cut. */
  lemma TilePrefix(c: Codec, p: seq<Byte>, y: seq<Byte>, us: seq<Unit>, vs: seq<Unit>)
    requires Lawful(c)
    requires forall u :: u in us ==> c.encode(u.ch) == Some(u.bytes)
    requires Bytes(us) + Bytes(vs) == p + y
    requires c.scan(p) == Clean(Text(us))
    ensures Bytes(us) == p
  {
    hide Lawful;
    EncodingScans(c, us);
    var q := Bytes(us);
    if |q| <= |p| {
      assert q == p[..|q|] by {
        assert (q + Bytes(vs))[..|q|] == (p + y)[..|q|];
      }
      assert p == q + p[|q|..];
      Restarts(c, q, p[|q|..]);
      EmptyTail(Text(us), |q|, c.scan(p[|q|..]));
      OnlyEmptyIsEmpty(c, p[|q|..]);
    } else {
      assert p == q[..|p|] by {
        assert (q + Bytes(vs))[..|p|] == (p + y)[..|p|];
      }
      assert q == p + q[|p|..];
      Restarts(c, p, q[|p|..]);
      EmptyTail(Text(us), |p|, c.scan(q[|p|..]));
      OnlyEmptyIsEmpty(c, q[|p|..]);
    }
  }

  /** Tiling may be cut wherever the decoder stands between characters. */
  lemma TileSplits(c: Codec, p: seq<Byte>, y: seq<Byte>)
    requires Lawful(c) && c.scan(p).Clean? && c.scan(y).Clean?
    ensures var a, b := Tile(c, c.scan(p).text, p), Tile(c, c.scan(y).text, y);
            Tile(c, c.scan(p).text + c.scan(y).text, p + y) ==
            if a.None? || b.None? then None else Some(a.value + b.value)
  {
    hide Lawful, Tile;
    var tp, ty := c.scan(p).text, c.scan(y).text;
    var a, b, ab := Tile(c, tp, p), Tile(c, ty, y), Tile(c, tp + ty, p + y);
    if a.Some? && b.Some? {
      PartsTileWhole(c, a.value, b.value);
    } else if ab.Some? {
      WholeTilesParts(c, p, y, ab.value);
    }
  }

  lemma PartsTileWhole(c: Codec, us: seq<Unit>, vs: seq<Unit>)
    requires forall u :: u in us + vs ==> !u.isOpaque && c.encode(u.ch) == Some(u.bytes)
    ensures Tile(c, Text(us) + Text(vs), Bytes(us) + Bytes(vs)) == Some(us + vs)
  {
    BytesAppend(us, vs);
    assert Text(us + vs) == Text(us) + Text(vs);
    TileOfUnits(c, us + vs);
  }

  lemma UnitsCut(us: seq<Unit>, n: nat)
    requires n <= |us|
    ensures Bytes(us) == Bytes(us[..n]) + Bytes(us[n..])
    ensures Text(us[..n]) == Text(us)[..n] && Text(us[n..]) == Text(us)[n..]
    ensures us[..n] + us[n..] == us
  {
    hide Bytes;
    assert us == us[..n] + us[n..];
    BytesAppend(us[..n], us[n..]);
  }

  lemma CutBack<T>(x: seq<T>, y: seq<T>)
    ensures (x + y)[..|x|] == x && (x + y)[|x|..] == y
  {
  }

  lemma WholeTilesParts(c: Codec, p: seq<Byte>, y: seq<Byte>, us: seq<Unit>)
    requires Lawful(c) && c.scan(p).Clean? && c.scan(y).Clean?
    requires Tile(c, c.scan(p).text + c.scan(y).text, p + y) == Some(us)
    ensures Tile(c, c.scan(p).text, p).Some? && Tile(c, c.scan(y).text, y).Some?
  {
    var tp, ty := c.scan(p).text, c.scan(y).text;
    hide Lawful, Bytes, Text, Tile;
    CutBack(tp, ty);
    UnitsCut(us, |tp|);
    var a, b := us[..|tp|], us[|tp|..];
    TilePrefix(c, p, y, a, b);
    CutBack(p, y);
    CutBack(Bytes(a), Bytes(b));
    TileOfUnits(c, a);
    TileOfUnits(c, b);
  }

  lemma ThenThen(us: seq<Unit>, vs: seq<Unit>, d: Decoding)
    ensures Then(us, Then(vs, d)) == Then(us + vs, d)
  {
    if d.Decoded? {
      assert us + (vs + d.units) == us + vs + d.units;
    }
  }

  /** Decoding may stop after clean bytes and resume with the rest. */
  lemma RecoverRestarts(c: Codec, p: seq<Byte>, y: seq<Byte>, count: nat, spans: nat)
    requires Lawful(c) && c.scan(p).Clean?
    ensures var pre := Emit(c, count, c.scan(p).text, p);
            Recover(c, p + y, count, spans) ==
            if pre.None? then Failed(DecodeError) else Then(pre.value, Recover(c, y, count + |pre.value|, spans))
  {
    hide Lawful, Recover, Tile;
    Restarts(c, p, y);
    match c.scan(y) {
      case Clean(ty) =>
        RecoverClean(c, p + y, count, spans);
        EmitSplits(c, p, y, count);
        RecoverClean(c, y, count + Len(Emit(c, count, c.scan(p).text, p)), spans);
      case Bad(s, e) =>
        ErrorRestarts(c, p, y, s, e, count, spans);
    }
  }

  lemma ErrorRestarts(c: Codec, p: seq<Byte>, y: seq<Byte>, s: nat, e: nat, count: nat, spans: nat)
    requires Lawful(c) && c.scan(p).Clean? && c.scan(y) == Bad(s, e)
    ensures var pre := Emit(c, count, c.scan(p).text, p);
            Recover(c, p + y, count, spans) ==
            if pre.None? then Failed(DecodeError) else Then(pre.value, Recover(c, y, count + |pre.value|, spans))
  {
    hide Lawful, Recover, Tile;
    Restarts(c, p, y);
    RecoverError(c, p + y, |p| + s, |p| + e, count, spans);
    assert (p + y)[..|p| + s] == p + y[..s];
    assert (p + y)[|p| + s..|p| + e] == y[s..e];
    assert (p + y)[|p| + e..] == y[e..];
    ErrorBounds(c, y);
    Restarts(c, p, y[..s]);
    EmitSplits(c, p, y[..s], count);
    var pre := Emit(c, count, c.scan(p).text, p);
    if pre.Some? {
      RecoverError(c, y, s, e, count + |pre.value|, spans);
      var b := Emit(c, count + |pre.value|, c.scan(y[..s]).text, y[..s]);
      if b.Some? {
        var o := [Unit(OPAQUE_CHAR, y[s..e], true)];
        assert pre.value + b.value + o == pre.value + (b.value + o);
        ThenThen(pre.value, b.value + o, Recover(c, y[e..], count + |pre.value| + |b.value| + 1, spans + 1));
      }
    }
  }

  lemma EmitSplits(c: Codec, p: seq<Byte>, y: seq<Byte>, count: nat)
    requires Lawful(c) && c.scan(p).Clean? && c.scan(y).Clean?
    ensures var a := Emit(c, count, c.scan(p).text, p);
            Emit(c, count, c.scan(p).text + c.scan(y).text, p + y) ==
            if a.None? then None
            else
              var b := Emit(c, count + |a.value|, c.scan(y).text, y);
              if b.None? then None else Some(a.value + b.value)
  {
    hide Lawful;
    TileSplits(c, p, y);
  }

  /** What a recovered decoding promises: the units tile the body, and every unit
      is either one character's own encoding or an all-non-ASCII opaque span. */
  ghost predicate Accounts(c: Codec, body: seq<Byte>, us: seq<Unit>) {
    && Bytes(us) == body
    && forall u :: u in us ==>
         if u.isOpaque then u.ch == OPAQUE_CHAR && AllNonAscii(u.bytes) else c.encode(u.ch) == Some(u.bytes)
  }

  lemma {:induction false} RecoverTiles(c: Codec, body: seq<Byte>, count: nat, spans: nat)
    requires Lawful(c) && count <= MAX_DECODED_CHARACTERS
    ensures var d := Recover(c, body, count, spans);
            d.Decoded? ==> Accounts(c, body, d.units) && count + |d.units| <= MAX_DECODED_CHARACTERS
    decreases |body|
  {
    hide Lawful, Recover, Tile;
    match c.scan(body) {
      case Clean(t) =>
        RecoverClean(c, body, count, spans);
      case Bad(s, e) =>
        RecoverError(c, body, s, e, count, spans);
        var pre := Emit(c, count, c.scan(body[..s]).text, body[..s]);
        var d := Recover(c, body[e..], count + Len(pre) + 1, spans + 1);
        if pre.Some? && d.Decoded? && AllNonAscii(body[s..e]) && count + |pre.value| < MAX_DECODED_CHARACTERS {
          RecoverTiles(c, body[e..], count + Len(pre) + 1, spans + 1);
          AccountsAppend(c, body[..s], body[s..e], body[e..], pre.value, d.units);
          assert body == body[..s] + body[s..e] + body[e..];
        }
    }
  }

  lemma AccountsAppend(c: Codec, p: seq<Byte>, span: seq<Byte>, y: seq<Byte>, us: seq<Unit>, vs: seq<Unit>)
    requires Accounts(c, p, us) && Accounts(c, y, vs) && AllNonAscii(span)
    ensures Accounts(c, p + span + y, us + [Unit(OPAQUE_CHAR, span, true)] + vs)
  {
    var o := [Unit(OPAQUE_CHAR, span, true)];
    BytesAppend(us + o, vs);
    BytesAppend(us, o);
    assert Bytes(o) == span + Bytes([]);
  }

  /** `emit`, one character at a time, with byte positions in the whole body. The
      source compares each encoding with body bytes that may lie past the segment
      and only then checks where it ended. */
  method EmitSegment(c: Codec, body: seq<Byte>, segment: seq<Byte>, bodyStart: nat, decoded: string, count: nat)
    returns (r: Option<seq<Unit>>)
    requires bodyStart + |segment| <= |body| && segment == body[bodyStart..bodyStart + |segment|]
    ensures r == Emit(c, count, decoded, segment)
  {
    hide Tiled, Tile, Glue;
    if count + |decoded| > MAX_DECODED_CHARACTERS {
      return None;
    }
    var us: seq<Unit> := [];
    var position := bodyStart;
    var k := 0;
    TilingStarts(c, decoded, segment);
    while k < |decoded|
      invariant 0 <= k <= |decoded| && bodyStart <= position <= |body|
      invariant Tiled(c, decoded, segment, k, position - bodyStart, us)
    {
      var piece := c.encode(decoded[k]);
      TilingAdvances(c, body, bodyStart, decoded, segment, k, position, us);
      if piece.None? {
        return None;
      }
      var end := position + |piece.value|;
      if end > |body| || body[position..end] != piece.value {
        return None;
      }
      us := us + [Unit(decoded[k], piece.value, false)];
      position := end;
      k := k + 1;
    }
    TilingEnds(c, decoded, segment, position - bodyStart, us);
    if position != bodyStart + |segment| {
      return None;
    }
    return Some(us);
  }

  /** `us` are the units of the first `k` characters and `off` bytes; a position
      past the segment can no longer lead to a tiling. */
  ghost predicate Tiled(c: Codec, decoded: string, segment: seq<Byte>, k: nat, off: nat, us: seq<Unit>)
    requires k <= |decoded|
  {
    Tile(c, decoded, segment) == if off <= |segment| then Glue(us, Tile(c, decoded[k..], segment[off..])) else None
  }

  lemma TilingStarts(c: Codec, decoded: string, segment: seq<Byte>)
    ensures Tiled(c, decoded, segment, 0, 0, [])
  {
    assert decoded[0..] == decoded && segment[0..] == segment;
    var r := Tile(c, decoded, segment);
    if r.Some? {
      assert [] + r.value == r.value;
    }
  }

  lemma TilingEnds(c: Codec, decoded: string, segment: seq<Byte>, off: nat, us: seq<Unit>)
    requires Tiled(c, decoded, segment, |decoded|, off, us)
    ensures Tile(c, decoded, segment) == if off == |segment| then Some(us) else None
  {
    assert decoded[|decoded|..] == "";
    assert us + [] == us;
  }

  lemma TilingAdvances(c: Codec, body: seq<Byte>, start: nat, decoded: string, segment: seq<Byte>,
                       k: nat, position: nat, us: seq<Unit>)
    requires start + |segment| <= |body| && segment == body[start..start + |segment|]
    requires k < |decoded| && start <= position <= |body|
    requires Tiled(c, decoded, segment, k, position - start, us)
    ensures var piece := c.encode(decoded[k]);
            if piece.None? || position + |piece.value| > |body| || body[position..position + |piece.value|] != piece.value
            then Tile(c, decoded, segment) == None
            else Tiled(c, decoded, segment, k + 1, position + |piece.value| - start, us + [Unit(decoded[k], piece.value, false)])
  {
    hide Tile, Tiled;
    TiledNext(c, decoded, segment, k, position - start, us);
    var piece := c.encode(decoded[k]);
    if position <= start + |segment| && piece.Some? {
      PieceInSegment(body, segment, start, position, piece.value);
    }
  }

  /** One more character tiles the segment further or ends the tiling. */
  lemma TiledNext(c: Codec, decoded: string, segment: seq<Byte>, k: nat, off: nat, us: seq<Unit>)
    requires k < |decoded| && Tiled(c, decoded, segment, k, off, us)
    ensures var piece := c.encode(decoded[k]);
            if off > |segment| || piece.None? || !(piece.value <= segment[off..]) then
              Tile(c, decoded, segment) == None
              && (piece.Some? && off + |piece.value| > |segment| ==>
                    Tiled(c, decoded, segment, k + 1, off + |piece.value|, us + [Unit(decoded[k], piece.value, false)]))
            else
              Tiled(c, decoded, segment, k + 1, off + |piece.value|, us + [Unit(decoded[k], piece.value, false)])
  {
    hide Tile, Glue;
    if off <= |segment| {
      TileStep(c, decoded, segment, k, off, us);
    }
  }

  lemma PieceInSegment(body: seq<Byte>, segment: seq<Byte>, start: nat, position: nat, piece: seq<Byte>)
    requires start + |segment| <= |body| && segment == body[start..start + |segment|]
    requires start <= position <= start + |segment|
    ensures piece <= segment[position - start..] <==>
            position + |piece| <= start + |segment| && body[position..position + |piece|] == piece
  {
    var end := position + |piece|;
    if end <= start + |segment| {
      assert segment[position - start..][..|piece|] == body[position..end];
    }
  }

  ghost function Glue(us: seq<Unit>, r: Option<seq<Unit>>): Option<seq<Unit>> {
    if r.None? then None else Some(us + r.value)
  }

  /** One step of the mapping loop, `k` characters and `off` bytes in. */
  lemma TileStep(c: Codec, decoded: string, segment: seq<Byte>, k: nat, off: nat, us: seq<Unit>)
    requires k < |decoded| && off <= |segment|
    ensures var piece := c.encode(decoded[k]);
            Glue(us, Tile(c, decoded[k..], segment[off..])) ==
            if piece.None? || !(piece.value <= segment[off..]) then None
            else
              Glue(us + [Unit(decoded[k], piece.value, false)],
                   Tile(c, decoded[k + 1..], segment[off + |piece.value|..]))
  {
    assert decoded[k..][1..] == decoded[k + 1..];
    var piece := c.encode(decoded[k]);
    if piece.Some? && piece.value <= segment[off..] {
      assert segment[off..][|piece.value|..] == segment[off + |piece.value|..];
      var m := Tile(c, decoded[k + 1..], segment[off + |piece.value|..]);
      if m.Some? {
        assert us + ([Unit(decoded[k], piece.value, false)] + m.value) ==
               us + [Unit(decoded[k], piece.value, false)] + m.value;
      }
    }
  }

  /** `scan_recovering` with feed size `window`: bytes an error leaves undecided at
      the end of a feed are carried into the next one. The result does not depend
      on the window. */
  method ScanRecovering(c: Codec, body: seq<Byte>, window: nat) returns (r: Decoding)
    requires Lawful(c) && window >= 1
    ensures r == Recover(c, body, 0, 0)
  {
    hide Lawful, Recover;
    var length := |body|;
    var offset := 0;
    var carry: seq<Byte> := [];
    var carryStart := 0;
    var units: seq<Unit> := [];
    var spans := 0;
    assert body[0..] == body;
    while offset < length || carry != []
      invariant 0 <= carryStart <= length && 0 <= offset <= length
      invariant carry != [] ==> offset < length && carryStart + |carry| == offset && carry == body[carryStart..offset]
      invariant |units| <= MAX_DECODED_CHARACTERS
      invariant var done := if carry != [] then carryStart else offset;
                Recover(c, body, 0, 0) == Then(units, Recover(c, body[done..], |units|, spans))
      decreases length - offset
    {
      var chunk: seq<Byte>;
      var position: nat;
      if carry != [] {
        var take := if window > |carry| + 1 then window - |carry| else 1;
        take := if take < length - offset then take else length - offset;
        chunk := carry + body[offset..offset + take];
        position := carryStart;
        assert chunk == body[position..offset + take];
        offset := offset + take;
        carry := [];
      } else {
        var end := if offset + window < length then offset + window else length;
        chunk := body[offset..end];
        position := offset;
        offset := end;
      }
      var final := offset >= length;
      var feed := chunk;
      var failure, undecided;
      failure, position, units, spans, undecided := DecodeFeed(c, body, feed, position, offset, units, spans);
      if failure.Some? {
        return Failed(failure.value);
      }
      if undecided {
        carry := body[position..offset];
        carryStart := position;
      }
    }
    assert body[offset..] == [];
    OnlyEmptyIsEmpty(c, []);
    RecoverClean(c, [], |units|, spans);
    assert units + [] == units;
    return Decoded(units);
  }

  /** The inner loop over one feed: emit clean prefixes and decided error spans
      until the feed is used up or its last span is still undecided. */
  method DecodeFeed(c: Codec, body: seq<Byte>, feed0: seq<Byte>, position0: nat, offset: nat, units0: seq<Unit>, spans0: nat)
    returns (failure: Option<DecodeCode>, position: nat, units: seq<Unit>, spans: nat, undecided: bool)
    requires Lawful(c) && |units0| <= MAX_DECODED_CHARACTERS
    requires position0 <= offset <= |body| && feed0 == body[position0..offset]
    requires Recover(c, body, 0, 0) == Then(units0, Recover(c, body[position0..], |units0|, spans0))
    ensures failure.Some? ==> Recover(c, body, 0, 0) == Failed(failure.value)
    ensures failure.None? ==> position <= offset && |units| <= MAX_DECODED_CHARACTERS
    ensures failure.None? ==> Recover(c, body, 0, 0) == Then(units, Recover(c, body[position..], |units|, spans))
    ensures failure.None? ==> if undecided then position < offset < |body| else position == offset
  {
    hide Lawful, Recover, Emit;
    var feed := feed0;
    failure, position, units, spans, undecided := None, position0, units0, spans0, false;
    while true
      invariant failure.None? && !undecided && position <= offset && feed == body[position..offset]
      invariant |units| <= MAX_DECODED_CHARACTERS
      invariant Recover(c, body, 0, 0) == Then(units, Recover(c, body[position..], |units|, spans))
      decreases |feed|
    {
      FeedAhead(body, position, offset);
      match c.scan(feed) {
        case Clean(text) =>
          var us := EmitSegment(c, body, feed, position, text, |units|);
          CleanAdvance(c, body, position, feed, body[offset..], units, spans);
          EmitFits(c, |units|, text, feed);
          if us.None? {
            failure := Some(DecodeError);
            return;
          }
          units := units + us.value;
          position := offset;
          return;
        case Bad(s, e) =>
          ErrorBounds(c, feed);
          FeedSplits(body, position, offset, s, e);
          var clean := feed[..s];
          var us := EmitSegment(c, body, clean, position, c.scan(clean).text, |units|);
          CleanAdvance(c, body, position, clean, body[position + s..], units, spans);
          EmitFits(c, |units|, c.scan(clean).text, clean);
          if us.None? {
            failure := Some(DecodeError);
            return;
          }
          units := units + us.value;
          position := position + s;
          if e >= |feed| && offset < |body| {
            undecided := true;
            return;
          }
          var span := body[position..position + (e - s)];
          ErrorIsDecided(c, feed, body[offset..], s, e);
          ErrorAdvance(c, body, position, e - s, units, spans);
          if !AllNonAscii(span) {
            failure := Some(InvalidSpanAscii);
            return;
          }
          if spans >= MAX_INVALID_SPANS {
            failure := Some(RecoveryBoundExceeded);
            return;
          }
          if |units| + 1 > MAX_DECODED_CHARACTERS {
            failure := Some(DecodeError);
            return;
          }
          units := units + [Unit(OPAQUE_CHAR, span, true)];
          spans := spans + 1;
          feed := feed[e..];
          position := position + (e - s);
      }
    }
  }

  lemma EmitFits(c: Codec, count: nat, text: string, seg: seq<Byte>)
    ensures Emit(c, count, text, seg).Some? ==> count + |Emit(c, count, text, seg).value| <= MAX_DECODED_CHARACTERS
  {
  }

  lemma FeedAhead(body: seq<Byte>, position: nat, offset: nat)
    requires position <= offset <= |body|
    ensures body[position..] == body[position..offset] + body[offset..]
  {
    assert body[position..][..offset - position] == body[position..offset];
  }

  /** Cutting a feed at an error span. */
  lemma FeedSplits(body: seq<Byte>, position: nat, offset: nat, s: nat, e: nat)
    requires position <= offset <= |body| && s <= e <= offset - position
    ensures var feed := body[position..offset];
            && feed[..s] == body[position..position + s]
            && body[position..] == feed[..s] + body[position + s..]
            && body[position + s..] == (feed + body[offset..])[s..]
            && feed[e..] == body[position + e..offset]
  {
    var feed := body[position..offset];
    assert feed + body[offset..] == body[position..];
    assert body[position..][s..] == body[position + s..] && body[position..][..s] == feed[..s];
  }

  lemma CleanAdvance(c: Codec, body: seq<Byte>, position: nat, p: seq<Byte>, y: seq<Byte>, units: seq<Unit>, spans: nat)
    requires Lawful(c) && position <= |body| && body[position..] == p + y && c.scan(p).Clean?
    requires Recover(c, body, 0, 0) == Then(units, Recover(c, body[position..], |units|, spans))
    ensures var us := Emit(c, |units|, c.scan(p).text, p);
            if us.None? then Recover(c, body, 0, 0) == Failed(DecodeError)
            else Recover(c, body, 0, 0) == Then(units + us.value, Recover(c, y, |units + us.value|, spans))
  {
    hide Lawful, Recover, Tile;
    RecoverRestarts(c, p, y, |units|, spans);
    var us := Emit(c, |units|, c.scan(p).text, p);
    if us.Some? {
      ThenThen(units, us.value, Recover(c, y, |units| + |us.value|, spans));
    }
  }

  lemma ErrorAdvance(c: Codec, body: seq<Byte>, position: nat, n: nat, units: seq<Unit>, spans: nat)
    requires Lawful(c) && position + n <= |body| && c.scan(body[position..]) == Bad(0, n)
    requires Recover(c, body, 0, 0) == Then(units, Recover(c, body[position..], |units|, spans))
    ensures var span := body[position..position + n];
            Recover(c, body, 0, 0) ==
            if |units| > MAX_DECODED_CHARACTERS then Failed(DecodeError)
            else if !AllNonAscii(span) then Failed(InvalidSpanAscii)
            else if spans >= MAX_INVALID_SPANS then Failed(RecoveryBoundExceeded)
            else if |units| + 1 > MAX_DECODED_CHARACTERS then Failed(DecodeError)
            else Then(units + [Unit(OPAQUE_CHAR, span, true)], Recover(c, body[position + n..], |units| + 1, spans + 1))
  {
    hide Lawful, Recover;
    var rest := body[position..];
    RecoverError(c, rest, 0, n, |units|, spans);
    assert rest[..0] == [] && rest[0..n] == body[position..position + n] && rest[n..] == body[position + n..];
    OnlyEmptyIsEmpty(c, []);
    var o := [Unit(OPAQUE_CHAR, body[position..position + n], true)];
    assert [] + o == o;
    ThenThen(units, o, Recover(c, body[position + n..], |units| + 1, spans + 1));
  }

  /** An error inside the feed, or at the end of the input, is the next error of
      the whole remaining input. */
  lemma ErrorIsDecided(c: Codec, feed: seq<Byte>, more: seq<Byte>, s: nat, e: nat)
    requires Lawful(c) && c.scan(feed) == Bad(s, e)
    requires e < |feed| || more == []
    ensures s < e <= |feed| && c.scan((feed + more)[s..]) == Bad(0, e - s)
  {
    hide Lawful;
    ErrorBounds(c, feed);
    if more == [] {
      assert feed + more == feed;
    } else {
      ErrorIsStable(c, feed, more);
    }
    assert feed + more == feed[..s] + (feed + more)[s..];
    Restarts(c, feed[..s], (feed + more)[s..]);
  }
}
