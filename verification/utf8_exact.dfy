/** The UTF-8 decoder accepts exactly the encodings, and an error span is the longest
    start of an encoding that the bytes get to. */
module Utf8Exact {
  import opened Basics
  import opened Codecs
  import opened Utf8

  function EncodeAll(text: string): seq<Byte> {
    if text == "" then [] else Encode(text[0]) + EncodeAll(text[1..])
  }

  /** The bytes begin an encoding without completing it. */
  ghost predicate BeginsEncoding(b: seq<Byte>) {
    exists c :: |b| < |Encode(c)| && Encode(c)[..|b|] == b
  }

  lemma TwoByteHead(b: seq<Byte>)
    requires |b| >= 2 && 0xC2 <= b[0] <= 0xDF && IsTail(b[1])
    ensures b[..2] == Encode(ReadHead(b).ch)
  {
    var n := Low(b[0], 0xC0) * 64 + Low(b[1], 0x80);
    assert n / 64 == b[0] - 0xC0 && n % 64 == b[1] - 0x80;
  }

  lemma ThreeByteHead(b: seq<Byte>)
    requires |b| >= 3 && 0xE0 <= b[0] <= 0xEF && IsSecond(b[0], b[1]) && IsTail(b[2])
    ensures b[..3] == Encode(ReadHead(b).ch)
  {
    var n := Low(b[0], 0xE0) * 4096 + Low(b[1], 0x80) * 64 + Low(b[2], 0x80);
    assert n / 4096 == b[0] - 0xE0 && n / 64 % 64 == b[1] - 0x80 && n % 64 == b[2] - 0x80;
  }

  /** The four base-64 digits of a number. */
  lemma FourDigits(w: nat, x: nat, y: nat, z: nat)
    requires x < 64 && y < 64 && z < 64
    ensures var n := w * 262144 + x * 4096 + y * 64 + z;
            n / 262144 == w && n / 4096 % 64 == x && n / 64 % 64 == y && n % 64 == z
  {
    var n := w * 262144 + x * 4096 + y * 64 + z;
    assert n / 64 == w * 4096 + x * 64 + y;
    assert n / 4096 == w * 64 + x;
  }

  lemma FourByteHead(b: seq<Byte>)
    requires |b| >= 4 && 0xF0 <= b[0] <= 0xF4 && IsSecond(b[0], b[1]) && IsTail(b[2]) && IsTail(b[3])
    ensures b[..4] == Encode(ReadHead(b).ch)
  {
    FourDigits(b[0] - 0xF0, b[1] - 0x80, b[2] - 0x80, b[3] - 0x80);
  }

  /** A character is only ever read from its own encoding. */
  lemma HeadIsEncoded(b: seq<Byte>)
    requires b != [] && ReadHead(b).Good?
    ensures b[..ReadHead(b).len] == Encode(ReadHead(b).ch)
  {
    if 0xC2 <= b[0] <= 0xDF {
      TwoByteHead(b);
    } else if 0xE0 <= b[0] <= 0xEF {
      ThreeByteHead(b);
    } else if 0xF0 <= b[0] {
      FourByteHead(b);
    }
  }

  /** Clean bytes are the encodings of their text. */
  lemma {:induction false} CleanIsEncoded(b: seq<Byte>)
    requires ScanBytes(b).Clean?
    ensures b == EncodeAll(ScanBytes(b).text)
  {
    if b != [] {
      CleanStep(b);
      HeadIsEncoded(b);
      var h := ReadHead(b);
      hide *;
      CleanIsEncoded(b[h.len..]);
      EncodeFront(h.ch, ScanBytes(b[h.len..]).text);
      CutAt(b, h.len);
    }
  }

  lemma EncodeFront(c: char, more: string)
    ensures EncodeAll([c] + more) == Encode(c) + EncodeAll(more)
  {
    assert ([c] + more)[1..] == more;
  }

  lemma CutAt(b: seq<Byte>, n: nat)
    requires n <= |b|
    ensures b == b[..n] + b[n..]
  {
  }

  lemma {:induction false} EncodedIsClean(text: string)
    ensures ScanBytes(EncodeAll(text)) == Clean(text)
  {
    if text != "" {
      EncodedIsClean(text[1..]);
      var first, rest := Encode(text[0]), EncodeAll(text[1..]);
      ScanOfEncoding(text[0]);
      hide ReadHead, Encode, ScanBytes;
      ScanRestarts(first, rest);
      assert [text[0]] + text[1..] == text;
    }
  }

  /** Exactly the encodings of texts decode cleanly, each to its own text. */
  lemma CleanExactly(b: seq<Byte>, text: string)
    ensures ScanBytes(b) == Clean(text) <==> b == EncodeAll(text)
  {
    hide ScanBytes, EncodeAll;
    EncodedIsClean(text);
    if ScanBytes(b) == Clean(text) {
      CleanIsEncoded(b);
    }
  }

  /** Bytes that start with an encoding have that character as their head. */
  lemma HeadIsFirst(b: seq<Byte>, c: char)
    requires Encode(c) <= b
    ensures b != [] && ReadHead(b) == Good(c, |Encode(c)|)
  {
    hide ReadHead, Encode;
    HeadOfEncoding(c, b[|Encode(c)|..]);
    CutAt(b, |Encode(c)|);
    assert b[..|Encode(c)|] == Encode(c);
  }

  lemma IllBegins(b: seq<Byte>)
    requires b != [] && ReadHead(b).Ill? && ReadHead(b).len > 1
    ensures BeginsEncoding(b[..ReadHead(b).len])
  {
    var n := ReadHead(b).len;
    var full: seq<Byte> := b[..n] + (if b[0] <= 0xEF || n == 3 then [0x80] else [0x80, 0x80]);
    assert ReadHead(full).Good? && ReadHead(full).len == |full|;
    HeadIsEncoded(full);
    assert full[..|full|] == full && full[..n] == b[..n];
  }

  lemma IllEnds(b: seq<Byte>, m: nat)
    requires b != [] && ReadHead(b).Ill? && ReadHead(b).len < m <= |b|
    ensures !BeginsEncoding(b[..m])
  {
    if BeginsEncoding(b[..m]) {
      var c :| |b[..m]| < |Encode(c)| && Encode(c)[..|b[..m]|] == b[..m];
      var e := Encode(c);
      HeadOfEncoding(c, []);
      assert e + [] == e;
      hide Encode;
      assert forall k :: 0 <= k < m ==> e[k] == b[..m][k] == b[k];
    }
  }

  /** What an error span at `s..e` is: no character is encoded there, and the span is the
      longest start of an encoding, or a single byte. */
  ghost predicate IsErrorSpan(b: seq<Byte>, s: nat, e: nat) {
    && s < e <= |b|
    && (forall c :: !(Encode(c) <= b[s..]))
    && (e == s + 1 || BeginsEncoding(b[s..e]))
    && (forall m :: e < m <= |b| ==> !BeginsEncoding(b[s..m]))
  }

  lemma IllIsSpan(b: seq<Byte>)
    requires b != [] && ReadHead(b).Ill?
    ensures IsErrorSpan(b, 0, ReadHead(b).len)
  {
    hide ReadHead, Encode, BeginsEncoding;
    assert b[0..] == b;
    forall c
      ensures !(Encode(c) <= b[0..])
    {
      if Encode(c) <= b {
        HeadIsFirst(b, c);
      }
    }
    var n := ReadHead(b).len;
    assert b[0..n] == b[..n];
    if n > 1 {
      IllBegins(b);
    }
    forall m | n < m <= |b|
      ensures !BeginsEncoding(b[0..m])
    {
      IllEnds(b, m);
      assert b[0..m] == b[..m];
    }
  }

  lemma SpanBehind(b: seq<Byte>, n: nat, s: nat, e: nat)
    requires n <= |b| && IsErrorSpan(b[n..], s, e)
    ensures IsErrorSpan(b, n + s, n + e)
  {
    hide Encode, BeginsEncoding;
    var rest, from := b[n..], n + s;
    TailBehind(b, n, s);
    SliceBehind(b, n, s, n + e);
    forall m | n + e < m <= |b|
      ensures !BeginsEncoding(b[from..m])
    {
      SliceBehind(b, n, s, m);
      LongerStarts(rest, s, e, m - n);
    }
  }

  lemma LongerStarts(b: seq<Byte>, s: nat, e: nat, m: nat)
    requires IsErrorSpan(b, s, e) && e < m <= |b|
    ensures !BeginsEncoding(b[s..m])
  {
  }

  lemma TailBehind(b: seq<Byte>, n: nat, s: nat)
    requires n + s <= |b|
    ensures b[n + s..] == b[n..][s..]
  {
  }

  lemma SliceBehind(b: seq<Byte>, n: nat, s: nat, m: nat)
    requires n + s <= m <= |b|
    ensures b[n + s..m] == b[n..][s..m - n]
  {
  }

  /** The first error: clean text in front of it, and then an error span. */
  lemma {:induction false} ErrorExactly(b: seq<Byte>)
    requires ScanBytes(b).Bad?
    ensures var (s, e) := (ScanBytes(b).start, ScanBytes(b).end);
            && ScanBytes(b[..s]).Clean? && IsErrorSpan(b, s, e)
  {
    hide *;
    CleanBeforeError(b);
    BadStep(b);
    var h := ReadHead(b);
    if h.Ill? {
      IllIsSpan(b);
    } else {
      ErrorExactly(b[h.len..]);
      SpanBehind(b, h.len, ScanBytes(b[h.len..]).start, ScanBytes(b[h.len..]).end);
    }
  }

  lemma BadStep(b: seq<Byte>)
    requires ScanBytes(b).Bad?
    ensures b != []
    ensures var h := ReadHead(b);
            if h.Ill? then ScanBytes(b) == Bad(0, h.len)
            else h.len <= |b| && ScanBytes(b[h.len..]).Bad? && ScanBytes(b).start == h.len + ScanBytes(b[h.len..]).start
                 && ScanBytes(b).end == h.len + ScanBytes(b[h.len..]).end
  {
    ScanStep(b);
    hide ReadHead, ScanBytes;
  }

  lemma SpanIsLongest(b: seq<Byte>, m: nat, n: nat)
    requires IsErrorSpan(b, 0, m) && IsErrorSpan(b, 0, n)
    ensures m <= n
  {
    hide BeginsEncoding, Encode;
  }

  lemma GoodStarts(b: seq<Byte>)
    requires b != [] && ReadHead(b).Good?
    ensures Encode(ReadHead(b).ch) <= b[0..]
  {
    HeadIsEncoded(b);
    hide ReadHead, Encode;
    assert b[0..] == b;
  }

  lemma SpanIsIll(b: seq<Byte>, n: nat)
    requires IsErrorSpan(b, 0, n)
    ensures b != [] && ReadHead(b).Ill?
  {
    if ReadHead(b).Good? {
      GoodStarts(b);
    }
    hide ReadHead, Encode, BeginsEncoding;
  }

  /** The bytes begin with an error span exactly if the decoder reports just that. */
  lemma SpanExactly(b: seq<Byte>, n: nat)
    ensures ScanBytes(b) == Bad(0, n) <==> IsErrorSpan(b, 0, n)
  {
    if ScanBytes(b) == Bad(0, n) {
      ErrorExactly(b);
    }
    if IsErrorSpan(b, 0, n) {
      SpanIsIll(b, n);
      ScanStep(b);
      IllIsSpan(b);
      hide ReadHead, ScanBytes, IsErrorSpan;
      var h := ReadHead(b);
      SpanIsLongest(b, h.len, n);
      SpanIsLongest(b, n, h.len);
    }
  }
}
