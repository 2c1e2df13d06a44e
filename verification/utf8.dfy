/** UTF-8 as defined by section 4 of RFC 3629, with the error spans a strict
    decoder reports: the longest prefix of the bad bytes that some well-formed
    sequence starts with. */
module Utf8 {
  import opened Basics
  import opened Codecs

  function Encode(c: char): (r: seq<Byte>)
    ensures 1 <= |r| <= 4
    ensures !NonAscii(c) ==> r == [c as int]
    ensures NonAscii(c) ==> forall b :: b in r ==> 0x80 <= b <= 0xF4
  {
    var n := c as int;
    if n < 0x80 then [n]
    else if n < 0x800 then [0xC0 + n / 64, 0x80 + n % 64]
    else if n < 0x1_0000 then [0xE0 + n / 4096, 0x80 + n / 64 % 64, 0x80 + n % 64]
    else [0xF0 + n / 262144, 0x80 + n / 4096 % 64, 0x80 + n / 64 % 64, 0x80 + n % 64]
  }

  /** What the first bytes of a non-empty input are: a character of `len` bytes,
      or an ill-formed span of `len` bytes. */
  datatype Head = Good(ch: char, len: nat) | Ill(len: nat)

  predicate IsTail(b: Byte) {
    0x80 <= b <= 0xBF
  }

  /** The second byte allowed after a three- or four-byte lead. */
  predicate IsSecond(lead: Byte, b: Byte) {
    if lead == 0xE0 then 0xA0 <= b <= 0xBF
    else if lead == 0xED then 0x80 <= b <= 0x9F
    else if lead == 0xF0 then 0x90 <= b <= 0xBF
    else if lead == 0xF4 then 0x80 <= b <= 0x8F
    else IsTail(b)
  }

  /** The payload bits of a byte whose marker bits are `mark`. */
  function Low(b: Byte, mark: int): int {
    b - mark
  }

  function ReadHead(b: seq<Byte>): (h: Head)
    requires b != []
    ensures 1 <= h.len <= |b|
  {
    if b[0] < 0x80 then Good(b[0] as char, 1)
    else if 0xC2 <= b[0] <= 0xDF then
      if |b| < 2 || !IsTail(b[1]) then Ill(1)
      else Good((Low(b[0], 0xC0) * 64 + Low(b[1], 0x80)) as char, 2)
    else if 0xE0 <= b[0] <= 0xEF then
      if |b| < 2 || !IsSecond(b[0], b[1]) then Ill(1)
      else if |b| < 3 || !IsTail(b[2]) then Ill(2)
      else Good((Low(b[0], 0xE0) * 4096 + Low(b[1], 0x80) * 64 + Low(b[2], 0x80)) as char, 3)
    else if 0xF0 <= b[0] <= 0xF4 then
      if |b| < 2 || !IsSecond(b[0], b[1]) then Ill(1)
      else if |b| < 3 || !IsTail(b[2]) then Ill(2)
      else if |b| < 4 || !IsTail(b[3]) then Ill(3)
      else Good((Low(b[0], 0xF0) * 262144 + Low(b[1], 0x80) * 4096 + Low(b[2], 0x80) * 64 + Low(b[3], 0x80)) as char, 4)
    else Ill(1)
  }

  function ScanBytes(b: seq<Byte>): (s: Scan)
    ensures s.Bad? ==> s.start < s.end <= |b|
  {
    if b == [] then Clean("")
    else
      match ReadHead(b)
      case Ill(n) => Bad(0, n)
      case Good(c, n) => Follow([c], n, ScanBytes(b[n..]))
  }

  const UTF8 := Codec(c => Some(Encode(c)), (b: seq<Byte>) => ScanBytes(b))

  lemma ThreeBytes(c: char, y: seq<Byte>)
    requires 0x800 <= c as int < 0x1_0000
    ensures ReadHead(Encode(c) + y) == Good(c, 3)
  {
    var n := c as int;
    assert (n / 4096) * 4096 + n / 64 % 64 * 64 + n % 64 == n;
  }

  lemma FourBytes(c: char, y: seq<Byte>)
    requires c as int >= 0x1_0000
    ensures ReadHead(Encode(c) + y) == Good(c, 4)
  {
    var n := c as int;
    assert (n / 262144) * 262144 + n / 4096 % 64 * 4096 + n / 64 % 64 * 64 + n % 64 == n;
  }

  lemma HeadOfEncoding(c: char, y: seq<Byte>)
    ensures ReadHead(Encode(c) + y) == Good(c, |Encode(c)|)
  {
    var n := c as int;
    if 0x800 <= n < 0x1_0000 {
      ThreeBytes(c, y);
    } else if n >= 0x1_0000 {
      FourBytes(c, y);
    }
  }

  /** Appending bytes never changes a head that was decided before the end. */
  lemma HeadIsStable(b: seq<Byte>, y: seq<Byte>)
    requires b != []
    requires ReadHead(b).Good? || ReadHead(b).len < |b|
    ensures ReadHead(b + y) == ReadHead(b)
  {
  }

  lemma ScanStep(b: seq<Byte>)
    requires b != []
    ensures var h := ReadHead(b);
            ScanBytes(b) == if h.Ill? then Bad(0, h.len) else Follow([h.ch], h.len, ScanBytes(b[h.len..]))
  {
    hide ReadHead;
  }

  lemma FollowTwice(a: string, m: nat, b: string, n: nat, s: Scan)
    ensures Follow(a, m, Follow(b, n, s)) == Follow(a + b, m + n, s)
    ensures Follow(a, m, Clean(b)) == Clean(a + b)
  {
    if s.Clean? {
      assert a + (b + s.text) == a + b + s.text;
    }
  }

  lemma CleanStep(p: seq<Byte>)
    requires p != [] && ScanBytes(p).Clean?
    ensures var h := ReadHead(p);
            && h.Good? && h.len <= |p| && ScanBytes(p[h.len..]).Clean?
            && ScanBytes(p).text == [h.ch] + ScanBytes(p[h.len..]).text
  {
    ScanStep(p);
    hide ReadHead, ScanBytes, Encode;
  }

  lemma StepBefore(p: seq<Byte>, y: seq<Byte>)
    requires p != [] && ReadHead(p).Good?
    ensures var h := ReadHead(p);
            h.len <= |p| && ScanBytes(p + y) == Follow([h.ch], h.len, ScanBytes(p[h.len..] + y))
  {
    HeadIsStable(p, y);
    ScanStep(p + y);
    hide ReadHead, ScanBytes, Encode, Follow;
    var h := ReadHead(p);
    assert (p + y)[h.len..] == p[h.len..] + y;
  }

  lemma {:induction false} ScanRestarts(p: seq<Byte>, y: seq<Byte>)
    requires ScanBytes(p).Clean?
    ensures ScanBytes(p + y) == Follow(ScanBytes(p).text, |p|, ScanBytes(y))
  {
    if p == [] {
      assert p + y == y;
    } else {
      hide *;
      CleanStep(p);
      var h := ReadHead(p);
      StepBefore(p, y);
      ScanRestarts(p[h.len..], y);
      FollowTwice([h.ch], h.len, ScanBytes(p[h.len..]).text, |p| - h.len, ScanBytes(y));
    }
  }

  lemma {:induction false} ScanIsStable(b: seq<Byte>, y: seq<Byte>)
    requires ScanBytes(b).Bad? && ScanBytes(b).end < |b|
    ensures ScanBytes(b + y) == ScanBytes(b)
  {
    HeadIsStable(b, y);
    var n := ReadHead(b).len;
    if ReadHead(b).Good? {
      assert (b + y)[n..] == b[n..] + y;
      ScanIsStable(b[n..], y);
    }
  }

  /** A good head is decided by its own bytes. */
  lemma HeadAlone(b: seq<Byte>, y: seq<Byte>)
    requires b != [] && ReadHead(b).Good?
    ensures ReadHead(b[..ReadHead(b).len] + y) == ReadHead(b)
  {
  }

  lemma {:induction false} CleanBeforeError(b: seq<Byte>)
    requires ScanBytes(b).Bad?
    ensures ScanBytes(b[..ScanBytes(b).start]).Clean?
  {
    ScanStep(b);
    if ReadHead(b).Good? {
      hide ReadHead;
      var n := ReadHead(b).len;
      var rest := b[n..];
      CleanBeforeError(rest);
      var s := ScanBytes(rest).start;
      HeadAlone(b, rest[..s]);
      assert b[..n + s] == b[..n] + rest[..s];
      assert (b[..n] + rest[..s])[n..] == rest[..s];
    }
  }

  lemma ScanOfEncoding(c: char)
    ensures ScanBytes(Encode(c)) == Clean([c])
  {
    HeadOfEncoding(c, []);
    assert Encode(c) + [] == Encode(c);
  }

  /** The hypotheses made about every declared charset hold of UTF-8 itself. */
  lemma Utf8IsLawful()
    ensures Lawful(UTF8)
  {
    forall p: seq<Byte>, y: seq<Byte> | UTF8.scan(p).Clean?
      ensures UTF8.scan(p + y) == Follow(UTF8.scan(p).text, |p|, UTF8.scan(y))
    {
      ScanRestarts(p, y);
    }
    forall b: seq<Byte>, y: seq<Byte> | UTF8.scan(b).Bad? && UTF8.scan(b).end < |b|
      ensures UTF8.scan(b + y) == UTF8.scan(b)
    {
      ScanIsStable(b, y);
    }
    forall b: seq<Byte> | UTF8.scan(b).Bad?
      ensures UTF8.scan(b[..UTF8.scan(b).start]).Clean?
    {
      CleanBeforeError(b);
    }
    forall c: char, p: seq<Byte> | UTF8.encode(c) == Some(p)
      ensures UTF8.scan(p) == Clean([c])
    {
      ScanOfEncoding(c);
    }
  }
}
