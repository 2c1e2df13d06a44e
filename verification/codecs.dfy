/** A charset as the recoder sees it: a strict whole-input decoder that reports
    its first error span, and a per-character encoder. */
module Codecs {
  import opened Basics

  /** `bytes.decode(codec, "strict")`: the text, or the first error span. */
  datatype Scan = Clean(text: string) | Bad(start: nat, end: nat)

  datatype Codec = Codec(encode: char -> Option<seq<Byte>>, scan: seq<Byte> -> Scan)

  /** The scan of `n` clean bytes holding `text`, followed by bytes scanning to `s`. */
  function Follow(text: string, n: nat, s: Scan): Scan {
    match s
    case Clean(more) => Clean(text + more)
    case Bad(start, end) => Bad(n + start, n + end)
  }

  /** Hypotheses on a codec. It keeps no state between characters, an error span
      that ends before the input does is not moved by appending bytes, bytes
      before an error decode cleanly, only the empty input decodes to the empty
      text, encoding is inverted by decoding, and ASCII is encoded as itself. */
  ghost predicate Lawful(c: Codec) {
    && (forall p: seq<Byte>, y: seq<Byte> ::
          c.scan(p).Clean? ==> c.scan(p + y) == Follow(c.scan(p).text, |p|, c.scan(y)))
    && (forall b: seq<Byte>, y: seq<Byte> ::
          c.scan(b).Bad? && c.scan(b).end < |b| ==> c.scan(b + y) == c.scan(b))
    && (forall b: seq<Byte> :: c.scan(b).Bad? ==>
          c.scan(b).start < c.scan(b).end <= |b| && c.scan(b[..c.scan(b).start]).Clean?)
    && (forall b: seq<Byte> :: c.scan(b) == Clean("") <==> b == [])
    && (forall ch: char, p: seq<Byte> :: c.encode(ch) == Some(p) ==> c.scan(p) == Clean([ch]))
    && (forall ch: char :: !NonAscii(ch) ==> c.encode(ch) == Some([ch as int]))
  }

  lemma Restarts(c: Codec, p: seq<Byte>, y: seq<Byte>)
    requires Lawful(c) && c.scan(p).Clean?
    ensures c.scan(p + y) == Follow(c.scan(p).text, |p|, c.scan(y))
  {
  }

  lemma ErrorIsStable(c: Codec, b: seq<Byte>, y: seq<Byte>)
    requires Lawful(c) && c.scan(b).Bad? && c.scan(b).end < |b|
    ensures c.scan(b + y) == c.scan(b)
  {
  }

  lemma ErrorBounds(c: Codec, b: seq<Byte>)
    requires Lawful(c) && c.scan(b).Bad?
    ensures c.scan(b).start < c.scan(b).end <= |b| && c.scan(b[..c.scan(b).start]).Clean?
  {
  }

  lemma OnlyEmptyIsEmpty(c: Codec, b: seq<Byte>)
    requires Lawful(c)
    ensures c.scan(b) == Clean("") <==> b == []
  {
  }

  lemma EncodingDecodes(c: Codec, ch: char, p: seq<Byte>)
    requires Lawful(c) && c.encode(ch) == Some(p)
    ensures c.scan(p) == Clean([ch])
  {
  }

  lemma AsciiIsItself(c: Codec, ch: char)
    requires Lawful(c) && !NonAscii(ch)
    ensures c.encode(ch) == Some([ch as int])
  {
  }
}
