/** What a completed scan knows about its intervals, its alarms and its blockers. */
module ScanFacts {
  import opened Basics
  import opened DecodeUnits
  import opened Findings
  import opened LogicalView
  import opened Lexer
  import opened LexerFacts
  import opened LexerAccounts
  import opened ScanState
  import opened Output
  import Utf8

  /** The intervals a list of events builds; only comments matter. */
  function FoldIntervals(physical: seq<nat>, ivs: seq<(nat, nat)>, events: seq<Event>): seq<(nat, nat)>
    decreases |events|
  {
    if events == [] then ivs
    else if events[0].Comment? && events[0].start < events[0].end <= |physical| then
      FoldIntervals(physical, AddInterval(ivs, physical[events[0].start], physical[events[0].end - 1] + 1), events[1..])
    else FoldIntervals(physical, ivs, events[1..])
  }

  lemma {:induction false} FoldOfComments(physical: seq<nat>, ivs: seq<(nat, nat)>, events: seq<Event>)
    ensures FoldIntervals(physical, ivs, events) == FoldIntervals(physical, ivs, Comments(events))
    decreases |events|
  {
    hide AddInterval;
    if events != [] {
      var e := events[0];
      var rest := Comments(events[1..]);
      if e.Comment? {
        assert ([e] + rest)[1..] == rest;
      }
      if e.Comment? && e.start < e.end <= |physical| {
        FoldOfComments(physical, AddInterval(ivs, physical[e.start], physical[e.end - 1] + 1), events[1..]);
      } else {
        FoldOfComments(physical, ivs, events[1..]);
      }
    }
  }

  lemma {:induction false} AddAllKeeps(st: State, fs: seq<Finding>)
    ensures var r := AddAll(st, fs);
            r.intervals == st.intervals && r.blockerCount >= st.blockerCount
    decreases |fs|
  {
    if fs != [] {
      AddAllKeeps(Add(st, fs[0]), fs[1..]);
    }
  }

  lemma RecordKeeps(st: State, a: nat, b: nat, reason: Reason)
    requires a <= b
    ensures var r := AddRecord(st, a, b, reason); r.intervals == st.intervals && r.blockerCount == st.blockerCount
  {
  }

  lemma OpaqueKeeps(src: Source, st: State, i: nat)
    requires Wired(src) && i < |src.units|
    ensures var r := MarkOpaque(src, st, i); r.intervals == st.intervals && r.blockerCount >= st.blockerCount
  {
    hide Wired, OpaqueTrail;
  }

  /** Later states keep the intervals and lose no blocker. */
  predicate KeepsCounts(a: State, b: State) {
    b.intervals == a.intervals && b.blockerCount >= a.blockerCount
  }

  lemma MarkKeeps(src: Source, st: State, k: nat)
    requires Wired(src) && k < |src.physical|
    ensures KeepsCounts(st, MarkContent(src, st, k))
  {
    var i := src.physical[k];
    OpaqueKeeps(src, st, i);
    KeptKeeps(src, st, i);
    var reason := ReplacementReason(src.units[i].ch);
    if reason.Some? {
      ReplacedKeeps(src, st, i, reason.value);
    }
    hide MarkOpaque, MarkKept, MarkReplaced, ReplacementReason, NonAscii;
  }

  lemma KeptKeeps(src: Source, st: State, i: nat)
    requires Wired(src) && i < |src.units|
    ensures KeepsCounts(st, MarkKept(src, st, i))
  {
    hide Wired, ContentFindings, AddAll;
    var changed := if src.legacy then st.changedUnits + 1 else st.changedUnits;
    AddAllKeeps(st.(commentNonAscii := st.commentNonAscii + 1, changedUnits := changed), ContentFindings(src, i, false));
  }

  lemma ReplacedKeeps(src: Source, st: State, i: nat, reason: Reason)
    requires Wired(src) && i < |src.units|
    ensures KeepsCounts(st, MarkReplaced(src, st, i, reason))
  {
    var (start, end) := src.offsets[i];
    assert start <= end;
    hide Wired, ContentFindings, AddAll, AddRecord;
    var counted := st.(commentNonAscii := st.commentNonAscii + 1, changedUnits := st.changedUnits + 1);
    AddAllKeeps(counted, ContentFindings(src, i, true));
    RecordKeeps(AddAll(counted, ContentFindings(src, i, true)), start, end, reason);
  }

  lemma {:induction false} MarkRangeKeeps(src: Source, st: State, a: nat, b: nat)
    requires Wired(src) && b <= |src.physical|
    ensures var r := MarkRange(src, st, a, b);
            r.intervals == st.intervals && r.blockerCount >= st.blockerCount
    decreases b - a
  {
    if a < b {
      MarkKeeps(src, st, a);
      hide MarkContent;
      MarkRangeKeeps(src, MarkContent(src, st, a), a + 1, b);
    }
  }

  lemma ApplyKeeps(src: Source, st: State, ev: Event)
    requires Wired(src)
    ensures Apply(src, st, ev).intervals == FoldIntervals(src.physical, st.intervals, [ev])
    ensures Apply(src, st, ev).blockerCount >= st.blockerCount
  {
    assert [ev][1..] == [];
    if ev.Comment? && ev.end <= |src.physical| {
      MarkRangeKeeps(src, st, ev.start, ev.end);
    }
  }

  lemma FoldStep(physical: seq<nat>, ivs: seq<(nat, nat)>, events: seq<Event>)
    requires events != []
    ensures FoldIntervals(physical, ivs, events) ==
            FoldIntervals(physical, FoldIntervals(physical, ivs, [events[0]]), events[1..])
  {
    assert [events[0]][1..] == [];
  }

  /** A scan's intervals are those of its comments alone. */
  lemma {:induction false} ApplyAllKeeps(src: Source, st: State, events: seq<Event>)
    requires Wired(src)
    ensures ApplyAll(src, st, events).intervals == FoldIntervals(src.physical, st.intervals, events)
    ensures ApplyAll(src, st, events).blockerCount >= st.blockerCount
    decreases |events|
  {
    if events != [] {
      ApplyKeeps(src, st, events[0]);
      assert [events[0]][1..] == [];
      FoldStep(src.physical, st.intervals, events);
      hide Apply, FoldIntervals, Wired;
      ApplyAllKeeps(src, Apply(src, st, events[0]), events[1..]);
    }
  }

  // Intervals are ordered and cover the comments

  predicate Increasing(physical: seq<nat>) {
    forall a, b :: 0 <= a < b < |physical| ==> physical[a] < physical[b]
  }

  /** Well-formed intervals that end before the first character not yet scanned. */
  ghost predicate Behind(physical: seq<nat>, n: nat, ivs: seq<(nat, nat)>, from: nat) {
    && WellFormed(ivs, n)
    && (forall j :: 0 <= j < |ivs| ==> 1 <= ivs[j].0)
    && (ivs != [] ==> 0 < from <= |physical| && ivs[|ivs| - 1].1 <= physical[from - 1] + 1)
  }

  /** Where the content from `a` to `b` lies behind older intervals. */
  lemma ContentLies(physical: seq<nat>, n: nat, ivs: seq<(nat, nat)>, from: nat, a: nat, b: nat)
    requires Increasing(physical) && (forall k :: 0 <= k < |physical| ==> physical[k] < n)
    requires Behind(physical, n, ivs, from) && from + 2 <= a < b <= |physical|
    ensures 1 <= physical[a] < physical[b - 1] + 1 <= n
    ensures ivs != [] ==> ivs[|ivs| - 1].0 < ivs[|ivs| - 1].1 <= physical[a]
    ensures forall k :: a <= k < b ==> physical[a] <= physical[k] < physical[b - 1] + 1
  {
    assert physical[0] < physical[a];
    assert a < b - 1 ==> physical[a] < physical[b - 1];
    assert ivs != [] ==> physical[from - 1] < physical[a];
  }

  lemma AddIntervalBehind(physical: seq<nat>, n: nat, ivs: seq<(nat, nat)>, from: nat, a: nat, b: nat)
    requires Increasing(physical) && (forall k :: 0 <= k < |physical| ==> physical[k] < n)
    requires Behind(physical, n, ivs, from) && from + 2 <= a < b <= |physical|
    ensures Behind(physical, n, AddInterval(ivs, physical[a], physical[b - 1] + 1), b)
  {
    ContentLies(physical, n, ivs, from, a, b);
    hide Increasing;
  }

  /** Adding a range behind all others covers just that range more. */
  lemma AddIntervalCovers(ivs: seq<(nat, nat)>, first: nat, last: nat)
    requires first < last && (ivs != [] ==> ivs[|ivs| - 1].0 < ivs[|ivs| - 1].1 <= first)
    ensures var r := AddInterval(ivs, first, last);
            && (forall i: nat :: Covered(ivs, i) ==> Covered(r, i))
            && (forall i: nat :: first <= i < last ==> Covered(r, i))
            && (forall i: nat :: Covered(r, i) ==> Covered(ivs, i) || first <= i)
  {
    var r, m := AddInterval(ivs, first, last), |ivs|;
    forall i: nat | Covered(ivs, i)
      ensures Covered(r, i)
    {
      var j :| 0 <= j < m && ivs[j].0 <= i < ivs[j].1;
      assert r[j].0 <= i < r[j].1;
    }
    forall i: nat | first <= i < last
      ensures Covered(r, i)
    {
      assert r[|r| - 1].0 <= i < r[|r| - 1].1;
    }
    forall i: nat | Covered(r, i)
      ensures Covered(ivs, i) || first <= i
    {
      var j :| 0 <= j < |r| && r[j].0 <= i < r[j].1;
      if j < m && ivs[j].0 <= i < ivs[j].1 {
        assert Covered(ivs, i);
      }
    }
  }

  lemma AddIntervalFacts(physical: seq<nat>, n: nat, ivs: seq<(nat, nat)>, from: nat, a: nat, b: nat)
    requires Increasing(physical) && (forall k :: 0 <= k < |physical| ==> physical[k] < n)
    requires Behind(physical, n, ivs, from) && from + 2 <= a < b <= |physical|
    ensures var r := AddInterval(ivs, physical[a], physical[b - 1] + 1);
            && Behind(physical, n, r, b)
            && (forall i: nat :: Covered(ivs, i) ==> Covered(r, i))
            && (forall k :: a <= k < b ==> Covered(r, physical[k]))
            && (forall i: nat :: Covered(r, i) ==> Covered(ivs, i) || physical[a] <= i)
  {
    hide *;
    ContentLies(physical, n, ivs, from, a, b);
    AddIntervalBehind(physical, n, ivs, from, a, b);
    AddIntervalCovers(ivs, physical[a], physical[b - 1] + 1);
  }

  predicate InComment(events: seq<Event>, k: nat) {
    exists j :: 0 <= j < |events| && events[j].Comment? && events[j].start <= k < events[j].end
  }

  /** How the intervals `r` place what is scanned from logical position `from` on:
      they keep the older intervals, cover nothing else before `from`, and hold a
      non-ASCII character exactly when it is comment content; any other one has
      raised an alarm. */
  ghost predicate Placed(s: string, physical: seq<nat>, ivs: seq<(nat, nat)>, events: seq<Event>, from: nat, r: seq<(nat, nat)>)
    requires |s| == |physical|
  {
    && (forall i: nat :: Covered(ivs, i) ==> Covered(r, i))
    && (forall i: nat :: Covered(r, i) ==> Covered(ivs, i) || (from < |physical| && i > physical[from]))
    && (forall k :: from <= k < |s| && NonAscii(s[k]) ==>
          if Covered(r, physical[k]) then InComment(events, k) else Alarm(k) in events)
  }

  /** What a fold of events over intervals behind `from` yields. */
  ghost predicate Folds(s: string, physical: seq<nat>, n: nat, ivs: seq<(nat, nat)>, events: seq<Event>, from: nat)
    requires |s| == |physical|
  {
    var r := FoldIntervals(physical, ivs, events);
    && WellFormed(r, n) && (forall j :: 0 <= j < |r| ==> 1 <= r[j].0)
    && Placed(s, physical, ivs, events, from, r)
  }

  lemma {:induction false} FoldFacts(s: string, physical: seq<nat>, n: nat, ivs: seq<(nat, nat)>, events: seq<Event>, from: nat)
    requires |s| == |physical| && Increasing(physical) && (forall k :: 0 <= k < |physical| ==> physical[k] < n)
    requires Behind(physical, n, ivs, from) && Traces(s, events, from, |s|)
    ensures Folds(s, physical, n, ivs, events, from)
    decreases |events|, 1
  {
    if events == [] {
      assert forall k :: from <= k < |s| ==> !NonAscii(s[k]);
    } else if events[0].Alarm? {
      var a := events[0].at;
      StaysBehind(physical, n, ivs, from, a + 1);
      FoldFacts(s, physical, n, ivs, events[1..], a + 1);
      AlarmStep(s, physical, n, ivs, events, from, FoldIntervals(physical, ivs, events));
    } else {
      FoldComment(s, physical, n, ivs, events, from);
    }
  }

  lemma {:induction false} FoldComment(s: string, physical: seq<nat>, n: nat, ivs: seq<(nat, nat)>, events: seq<Event>, from: nat)
    requires |s| == |physical| && Increasing(physical) && (forall k :: 0 <= k < |physical| ==> physical[k] < n)
    requires Behind(physical, n, ivs, from) && Traces(s, events, from, |s|)
    requires events != [] && events[0].Comment?
    ensures Folds(s, physical, n, ivs, events, from)
    decreases |events|, 0
  {
    var a, b := events[0].start, events[0].end;
    hide *;
    CommentTrace(s, events, from);
    var next := NextIntervals(physical, ivs, a, b);
    NextIntervalFacts(physical, n, ivs, from, a, b);
    FoldFacts(s, physical, n, next, events[1..], b);
    FoldsComment(s, physical, n, ivs, next, events, from);
  }

  lemma CommentTrace(s: string, events: seq<Event>, from: nat)
    requires Traces(s, events, from, |s|) && events != [] && events[0].Comment?
    ensures from + 2 <= events[0].start <= events[0].end <= |s| && Traces(s, events[1..], events[0].end, |s|)
  {
  }

  lemma FoldsComment(s: string, physical: seq<nat>, n: nat, ivs: seq<(nat, nat)>, next: seq<(nat, nat)>, events: seq<Event>, from: nat)
    requires |s| == |physical| && Increasing(physical)
    requires Traces(s, events, from, |s|) && events != [] && events[0].Comment?
    requires events[0].start <= events[0].end <= |s|
    requires next == NextIntervals(physical, ivs, events[0].start, events[0].end)
    requires Grows(physical, ivs, next, events[0].start, events[0].end)
    requires Folds(s, physical, n, next, events[1..], events[0].end)
    ensures Folds(s, physical, n, ivs, events, from)
  {
    hide AddInterval, Placed, Traces, Grows, WellFormed, Increasing;
    var r := FoldIntervals(physical, next, events[1..]);
    assert FoldIntervals(physical, ivs, events) == r;
    CommentStep(s, physical, ivs, next, events, from, r);
  }

  function NextIntervals(physical: seq<nat>, ivs: seq<(nat, nat)>, a: nat, b: nat): seq<(nat, nat)>
    requires b <= |physical|
  {
    if a < b then AddInterval(ivs, physical[a], physical[b - 1] + 1) else ivs
  }

  /** `next` covers what `ivs` does, the characters from `a` to `b` and nothing
      else before them. */
  ghost predicate Grows(physical: seq<nat>, ivs: seq<(nat, nat)>, next: seq<(nat, nat)>, a: nat, b: nat)
    requires b <= |physical|
  {
    && (forall i: nat :: Covered(ivs, i) ==> Covered(next, i))
    && (forall i: nat :: Covered(next, i) ==> Covered(ivs, i) || (a < b && physical[a] <= i))
    && (forall k :: a <= k < b ==> Covered(next, physical[k]))
  }

  lemma NextIntervalFacts(physical: seq<nat>, n: nat, ivs: seq<(nat, nat)>, from: nat, a: nat, b: nat)
    requires Increasing(physical) && (forall k :: 0 <= k < |physical| ==> physical[k] < n)
    requires Behind(physical, n, ivs, from) && from + 2 <= a <= b <= |physical|
    ensures var next := NextIntervals(physical, ivs, a, b);
            Behind(physical, n, next, b) && Grows(physical, ivs, next, a, b)
  {
    if a < b {
      AddIntervalFacts(physical, n, ivs, from, a, b);
    } else {
      StaysBehind(physical, n, ivs, from, b);
    }
  }

  lemma StaysBehind(physical: seq<nat>, n: nat, ivs: seq<(nat, nat)>, from: nat, to: nat)
    requires Increasing(physical) && Behind(physical, n, ivs, from) && from <= to <= |physical|
    ensures Behind(physical, n, ivs, to)
  {
    if ivs != [] && from < to {
      assert physical[from - 1] < physical[to - 1];
    }
  }

  lemma BehindCoversNothing(physical: seq<nat>, n: nat, ivs: seq<(nat, nat)>, from: nat, k: nat)
    requires Increasing(physical) && Behind(physical, n, ivs, from) && from <= k < |physical|
    ensures !Covered(ivs, physical[k])
  {
    if ivs != [] {
      var m := |ivs| - 1;
      assert from - 1 < k && physical[from - 1] < physical[k];
      forall j | 0 <= j < |ivs|
        ensures ivs[j].1 <= physical[k]
      {
        assert j < m ==> ivs[j].1 <= ivs[m].0;
      }
    }
  }

  lemma TailEvents(events: seq<Event>, k: nat)
    requires events != []
    ensures InComment(events[1..], k) ==> InComment(events, k)
    ensures Alarm(k) in events[1..] ==> Alarm(k) in events
  {
    if InComment(events[1..], k) {
      var j :| 0 <= j < |events[1..]| && events[1..][j].Comment? && events[1..][j].start <= k < events[1..][j].end;
      assert events[j + 1] == events[1..][j];
    }
  }

  lemma AlarmStep(s: string, physical: seq<nat>, n: nat, ivs: seq<(nat, nat)>, events: seq<Event>, from: nat, r: seq<(nat, nat)>)
    requires |s| == |physical| && Increasing(physical)
    requires events != [] && events[0].Alarm? && Traces(s, events, from, |s|)
    requires Behind(physical, n, ivs, from)
    requires Placed(s, physical, ivs, events[1..], events[0].at + 1, r)
    ensures Placed(s, physical, ivs, events, from, r)
  {
    var a := events[0].at;
    forall i: nat | Covered(r, i)
      ensures Covered(ivs, i) || (from < |physical| && i > physical[from])
    {
      if !Covered(ivs, i) {
        assert physical[from] < physical[a + 1] < i;
      }
    }
    forall k | from <= k < |s| && NonAscii(s[k])
      ensures if Covered(r, physical[k]) then InComment(events, k) else Alarm(k) in events
    {
      TailEvents(events, k);
      if k <= a {
        assert k == a;
        BehindCoversNothing(physical, n, ivs, from, a);
        assert a + 1 < |physical| ==> physical[a] < physical[a + 1];
        assert events[0] in events;
      }
    }
  }

  lemma CommentStep(s: string, physical: seq<nat>, ivs: seq<(nat, nat)>, next: seq<(nat, nat)>, events: seq<Event>, from: nat, r: seq<(nat, nat)>)
    requires |s| == |physical| && Increasing(physical)
    requires events != [] && events[0].Comment? && Traces(s, events, from, |s|)
    requires Grows(physical, ivs, next, events[0].start, events[0].end)
    requires Placed(s, physical, next, events[1..], events[0].end, r)
    ensures Placed(s, physical, ivs, events, from, r)
  {
    var a, b := events[0].start, events[0].end;
    forall i: nat | Covered(r, i)
      ensures Covered(ivs, i) || (from < |physical| && i > physical[from])
    {
      if !Covered(next, i) {
        assert physical[from] < physical[b] < i;
      } else if !Covered(ivs, i) {
        assert physical[from] < physical[a] <= i;
      }
    }
    forall k | from <= k < |s| && NonAscii(s[k])
      ensures if Covered(r, physical[k]) then InComment(events, k) else Alarm(k) in events
    {
      TailEvents(events, k);
      if k < b {
        assert a <= k;
        assert events[0].Comment? && events[0].start <= k < events[0].end;
        assert InComment(events, k);
      }
    }
  }
}
