/** Where comments are: the events of a completed scan, stated by positions in the text. */
module CommentRegions {
  import opened Basics
  import opened Findings
  import opened Lexer
  import opened Regions
  import opened RegionFacts

  /** A scan completes exactly if regions tile the text. */
  lemma ScanIsTiled(s: string)
    ensures Run(s, 0, true).Go? <==> exists rs :: Tiles(s, LineStart, 0, rs)
  {
    MiddleIsRun(s, 0);
    hide Run, Rest;
    if Run(s, 0, true).Go? {
      RestHasTiling(s, LineStart, 0);
    }
    if rs :| Tiles(s, LineStart, 0, rs) {
      TilingIsRest(s, LineStart, 0, rs);
    }
  }

  /** Whatever tiling there is, the scan reports what its regions hold. */
  lemma ReportIsTiling(s: string, rs: seq<Region>)
    requires Tiles(s, LineStart, 0, rs)
    ensures forall r :: r in rs ==> r.end <= |s|
    ensures Run(s, 0, true).Go? && Run(s, 0, true).events == AllEvents(s, rs)
  {
    MiddleIsRun(s, 0);
    hide Run, Rest;
    TilingIsRest(s, LineStart, 0, rs);
  }

  /** A literal is read over from its opening quote to its first unescaped closing one:
      no comment starts in it, and scanning goes on right behind it. */
  lemma LiteralsAreSkipped(s: string, quote: char, i: nat, b: nat, lineStart: bool)
    requires IsLiteral(s, quote, i, b) && (quote == '"' || (quote == '\'' && i + 2 < b))
    ensures Run(s, i, lineStart) == After(AlarmsIn(s, i, b), Run(s, b, false))
  {
    var p := if lineStart then LineStart else Middle;
    LiteralMoves(s, p, Region(if quote == '"' then StringK else CharacterK, i, b));
    MiddleIsRun(s, i);
    MiddleIsRun(s, b);
    hide Run, Rest, Escaped, AlarmsIn;
  }

  predicate IsComment(k: Kind) {
    k.LineCommentK? || k.BlockCommentK?
  }

  /** Regions inside which no comment can begin. */
  predicate IsOpaque(k: Kind) {
    IsComment(k) || k.StringK? || k.CharacterK? || k.HeaderK?
  }

  /** Position `i` is behind the first character of no literal, header name or comment. */
  predicate OutsideAll(rs: seq<Region>, i: nat) {
    forall r :: r in rs && IsOpaque(r.kind) ==> !(r.start < i < r.end)
  }

  // The regions of a tiling

  ghost predicate IsRead(s: string, r: Region) {
    IsLexeme(s, r) && exists p :: Belongs(s, p, r)
  }

  predicate Holds(rs: seq<Region>, k: nat) {
    exists r :: r in rs && r.start <= k < r.end
  }

  predicate Apart(rs: seq<Region>) {
    forall a, b :: a in rs && b in rs ==> a == b || a.end <= b.start || b.end <= a.start
  }

  /** Tiles are lexemes, do not overlap, and leave no gap. */
  lemma {:induction false} TilesLie(s: string, p: Place, i: nat, rs: seq<Region>)
    requires Tiles(s, p, i, rs)
    ensures i <= |s| && Apart(rs)
    ensures forall r :: r in rs ==> IsRead(s, r) && i <= r.start
    ensures forall k :: i <= k < |s| ==> Holds(rs, k)
    decreases |rs|
  {
    if rs != [] {
      var first, rest := rs[0], rs[1..];
      TilesLie(s, PlaceAfter(s, p, first), first.end, rest);
      assert Belongs(s, p, first);
      assert forall r :: r in rs <==> r == first || r in rest;
      hide Belongs, PlaceAfter, Tiles;
      forall k | i <= k < |s|
        ensures Holds(rs, k)
      {
        if k < first.end {
          assert first in rs && first.start <= k < first.end;
        } else {
          assert Holds(rest, k);
          var r :| r in rest && r.start <= k < r.end;
          assert r in rs && r.start <= k < r.end;
        }
      }
    }
  }

  lemma {:induction false} AlarmsAreAlarms(s: string, a: nat, b: nat)
    requires b <= |s|
    ensures forall ev :: ev in AlarmsIn(s, a, b) <==> ev.Alarm? && a <= ev.at < b && s[ev.at] as int > 127
    decreases b - a
  {
    if a < b {
      AlarmsAreAlarms(s, a + 1, b);
    }
  }

  /** An event stands for one region. */
  lemma {:induction false} EventsAreRegions(s: string, rs: seq<Region>)
    requires forall r :: r in rs ==> r.end <= |s|
    ensures forall ev :: ev in AllEvents(s, rs) <==> exists r :: r in rs && ev in EventsOf(s, r)
  {
    if rs != [] {
      EventsAreRegions(s, rs[1..]);
      hide EventsOf;
      forall ev
        ensures ev in AllEvents(s, rs) <==> exists r :: r in rs && ev in EventsOf(s, r)
      {
        if ev in AllEvents(s, rs[1..]) {
          var r :| r in rs[1..] && ev in EventsOf(s, r);
          assert r in rs;
        }
        if ev in EventsOf(s, rs[0]) {
          assert rs[0] in rs;
        }
      }
    }
  }

  /** The events of one region. */
  lemma EventOf(s: string, r: Region, ev: Event)
    requires IsLexeme(s, r)
    ensures ev in EventsOf(s, r) <==>
              match r.kind
              case LineCommentK => ev == Comment(r.start + 2, r.end)
              case BlockCommentK => ev == Comment(r.start + 2, r.end - 2)
              case _ => ev.Alarm? && r.start <= ev.at < r.end && s[ev.at] as int > 127
  {
    AlarmsAreAlarms(s, r.start, r.end);
    hide AlarmsIn;
  }

  /** Only a comment region begins with a comment opener. */
  lemma OpenersOpen(s: string, q: Place, r: Region, i: nat)
    requires IsLexeme(s, r) && Belongs(s, q, r) && r.start <= i < r.end && !IsOpaque(r.kind)
    ensures !Opens(s, i, '/') && !Opens(s, i, '*')
  {
    if r.kind.HashK? {
      assert s[i] == s[r.start..r.end][i - r.start];
    }
  }

  lemma LineEndsOnce(s: string, a: nat, b: nat, c: nat)
    requires IsLineComment(s, a, b) && IsLineComment(s, a, c)
    ensures b == c
  {
  }

  lemma BlockEndsFirst(s: string, a: nat, b: nat, c: nat)
    requires IsBlockComment(s, a, b) && IsBlockComment(s, a, c)
    ensures b <= c
  {
  }

  lemma NotBoth(s: string, a: nat, b: nat, c: nat)
    ensures !(IsLineComment(s, a, b) && IsBlockComment(s, a, c))
  {
  }

  /** A comment is reported exactly where a comment opener stands outside all literals,
      header names and other comments, and it ends with its line or at its first closer. */
  lemma CommentsExactly(s: string, rs: seq<Region>, a: nat, e: nat)
    requires Tiles(s, LineStart, 0, rs)
    ensures Run(s, 0, true).Go?
    ensures Comment(a, e) in Run(s, 0, true).events <==>
              a >= 2 && OutsideAll(rs, a - 2) && (IsLineComment(s, a - 2, e) || IsBlockComment(s, a - 2, e + 2))
  {
    hide *;
    ReportIsTiling(s, rs);
    TilesLie(s, LineStart, 0, rs);
    EventsAreRegions(s, rs);
    if Comment(a, e) in Run(s, 0, true).events {
      var r :| r in rs && Comment(a, e) in EventsOf(s, r);
      CommentIsRegion(s, rs, r, a, e);
    }
    if a >= 2 && OutsideAll(rs, a - 2) && (IsLineComment(s, a - 2, e) || IsBlockComment(s, a - 2, e + 2)) {
      RegionIsComment(s, rs, a, e);
    }
  }

  lemma CommentIsRegion(s: string, rs: seq<Region>, r: Region, a: nat, e: nat)
    requires r in rs && IsRead(s, r) && Apart(rs) && r.end <= |s| && Comment(a, e) in EventsOf(s, r)
    ensures a >= 2 && OutsideAll(rs, a - 2) && (IsLineComment(s, a - 2, e) || IsBlockComment(s, a - 2, e + 2))
  {
    EventOf(s, r, Comment(a, e));
    hide Belongs, IsLineComment, IsBlockComment, EventsOf;
    BlockIsLong(s, r);
  }

  lemma RegionIsComment(s: string, rs: seq<Region>, a: nat, e: nat)
    requires a >= 2 && OutsideAll(rs, a - 2) && (IsLineComment(s, a - 2, e) || IsBlockComment(s, a - 2, e + 2))
    requires forall k :: 0 <= k < |s| ==> Holds(rs, k)
    requires forall r :: r in rs ==> IsRead(s, r) && r.end <= |s|
    ensures exists r :: r in rs && Comment(a, e) in EventsOf(s, r)
  {
    hide IsLineComment, IsBlockComment, EventsOf, IsRead, OutsideAll;
    CommentOpens(s, a - 2, e);
    assert Holds(rs, a - 2);
    var r :| r in rs && r.start <= a - 2 < r.end;
    RegionOfComment(s, rs, r, a - 2, e);
    ReadIsLexeme(s, r);
    EventOf(s, r, Comment(a, e));
  }

  lemma ReadIsLexeme(s: string, r: Region)
    requires IsRead(s, r)
    ensures IsLexeme(s, r)
  {
  }

  lemma BlockIsLong(s: string, r: Region)
    requires IsLexeme(s, r)
    ensures r.kind.BlockCommentK? ==> r.end >= 2
  {
  }

  lemma CommentOpens(s: string, i: nat, e: nat)
    requires IsLineComment(s, i, e) || IsBlockComment(s, i, e + 2)
    ensures i < |s| && (Opens(s, i, '/') || Opens(s, i, '*'))
  {
  }

  /** The region around an opener outside all others is the comment it opens. */
  lemma RegionOfComment(s: string, rs: seq<Region>, r: Region, i: nat, e: nat)
    requires r in rs && IsRead(s, r) && r.start <= i < r.end && OutsideAll(rs, i)
    requires IsLineComment(s, i, e) || IsBlockComment(s, i, e + 2)
    ensures r == Region(LineCommentK, i, e) || r == Region(BlockCommentK, i, e + 2)
  {
    hide Belongs, IsLineComment, IsBlockComment, IsLiteral, IsHeader, IsWord, IsHash;
    var q :| Belongs(s, q, r);
    CommentOpens(s, i, e);
    if !IsOpaque(r.kind) {
      OpenersOpen(s, q, r, i);
    } else {
      assert r.start == i;
      OpaqueOpens(s, r);
      if r.kind.LineCommentK? {
        NotBoth(s, i, r.end, e + 2);
        LineEndsOnce(s, i, r.end, e);
      } else {
        NotBoth(s, i, e, r.end);
        BlockEndsFirst(s, i, r.end, e + 2);
        BlockEndsFirst(s, i, e + 2, r.end);
      }
    }
  }

  lemma OpaqueOpens(s: string, r: Region)
    requires IsLexeme(s, r) && IsOpaque(r.kind) && (Opens(s, r.start, '/') || Opens(s, r.start, '*'))
    ensures IsComment(r.kind)
    ensures if r.kind.LineCommentK? then IsLineComment(s, r.start, r.end) else IsBlockComment(s, r.start, r.end)
  {
  }

  /** Every non-ASCII character outside comments raises an alarm, and no other does. */
  lemma AlarmsExactly(s: string, rs: seq<Region>, k: nat)
    requires Tiles(s, LineStart, 0, rs)
    ensures Run(s, 0, true).Go?
    ensures Alarm(k) in Run(s, 0, true).events <==>
              k < |s| && s[k] as int > 127 && forall r :: r in rs && IsComment(r.kind) ==> !(r.start <= k < r.end)
  {
    hide *;
    ReportIsTiling(s, rs);
    TilesLie(s, LineStart, 0, rs);
    EventsAreRegions(s, rs);
    if Alarm(k) in Run(s, 0, true).events {
      var r :| r in rs && Alarm(k) in EventsOf(s, r);
      AlarmIsRegion(s, rs, r, k);
    }
    if k < |s| && s[k] as int > 127 && forall r :: r in rs && IsComment(r.kind) ==> !(r.start <= k < r.end) {
      assert Holds(rs, k);
      RegionIsAlarm(s, rs, k);
    }
  }

  lemma AlarmIsRegion(s: string, rs: seq<Region>, r: Region, k: nat)
    requires r in rs && IsRead(s, r) && Apart(rs) && r.end <= |s| && Alarm(k) in EventsOf(s, r)
    ensures k < |s| && s[k] as int > 127 && forall q :: q in rs && IsComment(q.kind) ==> !(q.start <= k < q.end)
  {
    EventOf(s, r, Alarm(k));
    hide IsRead, EventsOf;
  }

  lemma RegionIsAlarm(s: string, rs: seq<Region>, k: nat)
    requires k < |s| && s[k] as int > 127 && forall r :: r in rs && IsComment(r.kind) ==> !(r.start <= k < r.end)
    requires Holds(rs, k) && forall r :: r in rs ==> IsRead(s, r) && r.end <= |s|
    ensures exists r :: r in rs && Alarm(k) in EventsOf(s, r)
  {
    hide IsRead, EventsOf;
    var r :| r in rs && r.start <= k < r.end;
    ReadIsLexeme(s, r);
    EventOf(s, r, Alarm(k));
  }
}
