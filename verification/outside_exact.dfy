/** The bytes outside comments, unit by unit: what the intervals of a scan cover and
    what the outside segments hold. */
module OutsideExact {
  import opened Basics
  import opened DecodeUnits
  import opened Lexer
  import opened LexerAccounts
  import opened ScanFacts
  import opened ScanState
  import opened Output

  /** Unit `i` lies between the first and the last character of a comment's content. */
  predicate Around(physical: seq<nat>, ev: Event, i: nat) {
    ev.Comment? && ev.start < ev.end <= |physical| && physical[ev.start] <= i <= physical[ev.end - 1]
  }

  predicate AroundAny(physical: seq<nat>, events: seq<Event>, i: nat) {
    exists ev :: ev in events && Around(physical, ev, i)
  }

  lemma AddCovers(ivs: seq<(nat, nat)>, first: nat, last: nat, i: nat)
    requires first < last && (ivs != [] ==> ivs[|ivs| - 1].0 < ivs[|ivs| - 1].1 <= first)
    ensures Covered(AddInterval(ivs, first, last), i) <==> Covered(ivs, i) || first <= i < last
  {
    AddIntervalCovers(ivs, first, last);
    var r, m := AddInterval(ivs, first, last), |ivs|;
    if Covered(r, i) && !(first <= i < last) {
      var j :| 0 <= j < |r| && r[j].0 <= i < r[j].1;
      if j == |r| - 1 {
        assert m > 0 && ivs[m - 1].0 <= i < ivs[m - 1].1;
      } else {
        assert r[j] == ivs[j];
      }
    }
  }

  lemma NextCovers(physical: seq<nat>, n: nat, ivs: seq<(nat, nat)>, from: nat, ev: Event, i: nat)
    requires Increasing(physical) && (forall k :: 0 <= k < |physical| ==> physical[k] < n)
    requires Behind(physical, n, ivs, from) && ev.Comment? && from + 2 <= ev.start <= ev.end <= |physical|
    ensures Covered(NextIntervals(physical, ivs, ev.start, ev.end), i) <==> Covered(ivs, i) || Around(physical, ev, i)
  {
    if ev.start < ev.end {
      ContentLies(physical, n, ivs, from, ev.start, ev.end);
      hide Increasing, Behind, AddInterval, Covered;
      AddCovers(ivs, physical[ev.start], physical[ev.end - 1] + 1, i);
    }
  }

  lemma AroundFront(physical: seq<nat>, events: seq<Event>, i: nat)
    requires events != []
    ensures AroundAny(physical, events, i) <==> Around(physical, events[0], i) || AroundAny(physical, events[1..], i)
  {
    hide Around;
    if Around(physical, events[0], i) {
      assert events[0] in events;
    }
  }

  /** The intervals of a scan cover exactly the units around comment content. */
  lemma {:induction false} FoldCovers(s: string, physical: seq<nat>, n: nat, ivs: seq<(nat, nat)>, events: seq<Event>, from: nat, i: nat)
    requires |s| == |physical| && Increasing(physical) && (forall k :: 0 <= k < |physical| ==> physical[k] < n)
    requires Behind(physical, n, ivs, from) && Traces(s, events, from, |s|)
    ensures Covered(FoldIntervals(physical, ivs, events), i) <==> Covered(ivs, i) || AroundAny(physical, events, i)
    decreases |events|
  {
    if events != [] {
      var ev := events[0];
      hide Covered, AroundAny, Behind, Increasing, AddInterval;
      AroundFront(physical, events, i);
      if ev.Alarm? {
        StaysBehind(physical, n, ivs, from, ev.at + 1);
        FoldCovers(s, physical, n, ivs, events[1..], ev.at + 1, i);
      } else {
        NextIntervalFacts(physical, n, ivs, from, ev.start, ev.end);
        NextCovers(physical, n, ivs, from, ev, i);
        FoldCovers(s, physical, n, NextIntervals(physical, ivs, ev.start, ev.end), events[1..], ev.end, i);
      }
    }
  }

  // Segments

  function Flatten(segments: seq<seq<Byte>>): seq<Byte> {
    if segments == [] then [] else segments[0] + Flatten(segments[1..])
  }

  lemma {:induction false} FlattenAppends(a: seq<seq<Byte>>, b: seq<seq<Byte>>)
    ensures Flatten(a + b) == Flatten(a) + Flatten(b)
  {
    if a == [] {
      assert a + b == b;
    } else {
      assert (a + b)[1..] == a[1..] + b;
      FlattenAppends(a[1..], b);
    }
  }

  lemma FlattenOne(b: seq<Byte>)
    ensures Flatten(NonEmpty(b)) == b
  {
    if b != [] {
      assert [b][1..] == [];
    }
  }

  /** The bytes of the units from `i` on that `inside` does not take out. */
  function KeptBytes(us: seq<Unit>, inside: nat -> bool, i: nat): seq<Byte>
    decreases |us| - i
  {
    if i >= |us| then [] else (if inside(i) then [] else us[i].bytes) + KeptBytes(us, inside, i + 1)
  }

  function CoveredBy(intervals: seq<(nat, nat)>): nat -> bool {
    (i: nat) => Covered(intervals, i)
  }

  /** A stretch of units that are all kept, or all taken out. */
  lemma {:induction false} KeptRun(us: seq<Unit>, inside: nat -> bool, a: nat, b: nat, taken: bool)
    requires a <= b <= |us| && forall i :: a <= i < b ==> inside(i) == taken
    ensures KeptBytes(us, inside, a) == (if taken then [] else Bytes(us[a..b])) + KeptBytes(us, inside, b)
    decreases b - a
  {
    hide Bytes;
    if a < b {
      KeptRun(us, inside, a + 1, b, taken);
      FrontBytes(us, a, b);
      if !taken {
        assert us[a].bytes + (Bytes(us[a + 1..b]) + KeptBytes(us, inside, b))
            == us[a].bytes + Bytes(us[a + 1..b]) + KeptBytes(us, inside, b);
      }
    } else {
      NoBytes(us, a);
    }
  }

  lemma FrontBytes(us: seq<Unit>, a: nat, b: nat)
    requires a < b <= |us|
    ensures Bytes(us[a..b]) == us[a].bytes + Bytes(us[a + 1..b])
  {
    assert us[a..b][1..] == us[a + 1..b];
  }

  lemma NoBytes(us: seq<Unit>, a: nat)
    requires a <= |us|
    ensures Bytes(us[a..a]) == []
  {
  }

  lemma CoveredWithin(intervals: seq<(nat, nat)>, j: nat, i: nat)
    requires j < |intervals| && intervals[j].0 <= i < intervals[j].1
    ensures Covered(intervals, i)
  {
  }

  function GapEnd(us: seq<Unit>, intervals: seq<(nat, nat)>, j: nat): nat {
    if j < |intervals| then intervals[j].0 else |us|
  }

  lemma GapKept(us: seq<Unit>, intervals: seq<(nat, nat)>, j: nat)
    requires WellFormed(intervals, |us|) && j <= |intervals|
    ensures var (done, end) := (DoneBefore(intervals, j), GapEnd(us, intervals, j));
            && done <= end <= |us|
            && KeptBytes(us, CoveredBy(intervals), done) == Bytes(us[done..end]) + KeptBytes(us, CoveredBy(intervals), end)
  {
    var (done, end) := (DoneBefore(intervals, j), GapEnd(us, intervals, j));
    GapIsKept(us, intervals, false, j, end);
    forall i | done <= i < end
      ensures !Covered(intervals, i)
    {
      GapIsUncovered(intervals, |us|, j, i);
    }
    hide Covered, Bytes, WellFormed, KeptBytes;
    KeptRun(us, CoveredBy(intervals), done, end, false);
  }

  lemma IntervalTaken(us: seq<Unit>, intervals: seq<(nat, nat)>, j: nat)
    requires WellFormed(intervals, |us|) && j < |intervals|
    ensures DoneBefore(intervals, j + 1) <= |us|
    ensures KeptBytes(us, CoveredBy(intervals), GapEnd(us, intervals, j)) ==
            KeptBytes(us, CoveredBy(intervals), DoneBefore(intervals, j + 1))
  {
    forall i | intervals[j].0 <= i < intervals[j].1
      ensures Covered(intervals, i)
    {
      CoveredWithin(intervals, j, i);
    }
    hide Covered, Bytes, KeptBytes;
    KeptRun(us, CoveredBy(intervals), intervals[j].0, intervals[j].1, true);
  }

  lemma SegmentsHere(us: seq<Unit>, intervals: seq<(nat, nat)>, j: nat)
    requires WellFormed(intervals, |us|) && j <= |intervals| && DoneBefore(intervals, j) <= GapEnd(us, intervals, j) <= |us|
    ensures var here := NonEmpty(Bytes(us[DoneBefore(intervals, j)..GapEnd(us, intervals, j)]));
            SegmentsFrom(us, intervals, j) == here + if j < |intervals| then SegmentsFrom(us, intervals, j + 1) else []
  {
    hide Bytes;
    if j == |intervals| {
      assert us[DoneBefore(intervals, j)..|us|] == us[DoneBefore(intervals, j)..];
    }
  }

  /** The segments from interval `j` on are the bytes of the uncovered units behind it. */
  lemma {:induction false} SegmentsAreKept(us: seq<Unit>, intervals: seq<(nat, nat)>, j: nat)
    requires WellFormed(intervals, |us|) && j <= |intervals|
    ensures DoneBefore(intervals, j) <= |us|
    ensures Flatten(SegmentsFrom(us, intervals, j)) == KeptBytes(us, CoveredBy(intervals), DoneBefore(intervals, j))
    ensures forall x :: x in SegmentsFrom(us, intervals, j) ==> x != []
    decreases |intervals| - j
  {
    hide Bytes, KeptBytes, CoveredBy, Flatten, SegmentsFrom, DoneBefore, GapEnd, NonEmpty;
    GapKept(us, intervals, j);
    SegmentsHere(us, intervals, j);
    var gap := Bytes(us[DoneBefore(intervals, j)..GapEnd(us, intervals, j)]);
    if j < |intervals| {
      IntervalTaken(us, intervals, j);
      SegmentsAreKept(us, intervals, j + 1);
      GapInFront(gap, SegmentsFrom(us, intervals, j + 1));
    } else {
      NothingKept(us, intervals);
      EndIsEnd(us, intervals);
      GapInFront(gap, []);
    }
  }

  lemma GapInFront(gap: seq<Byte>, rest: seq<seq<Byte>>)
    requires forall x :: x in rest ==> x != []
    ensures Flatten(NonEmpty(gap) + rest) == gap + Flatten(rest) && Flatten([]) == []
    ensures forall x :: x in NonEmpty(gap) + rest ==> x != []
  {
    FlattenOne(gap);
    FlattenAppends(NonEmpty(gap), rest);
  }

  lemma EndIsEnd(us: seq<Unit>, intervals: seq<(nat, nat)>)
    ensures GapEnd(us, intervals, |intervals|) == |us|
  {
  }

  lemma NothingKept(us: seq<Unit>, intervals: seq<(nat, nat)>)
    ensures KeptBytes(us, CoveredBy(intervals), |us|) == []
  {
  }

  lemma {:induction false} KeptAlike(us: seq<Unit>, p: nat -> bool, q: nat -> bool, i: nat)
    requires forall k :: i <= k < |us| ==> p(k) == q(k)
    ensures KeptBytes(us, p, i) == KeptBytes(us, q, i)
    decreases |us| - i
  {
    if i < |us| {
      KeptAlike(us, p, q, i + 1);
    }
  }

  /** All outside segments in a row: the mark and the uncovered units. */
  lemma OutsideIsKeptBytes(head: seq<Byte>, us: seq<Unit>, intervals: seq<(nat, nat)>)
    requires WellFormed(intervals, |us|)
    ensures Flatten(Outside(head, us, intervals)) == head + KeptBytes(us, CoveredBy(intervals), 0)
    ensures forall x :: x in Outside(head, us, intervals) ==> x != []
  {
    hide Covered, Bytes, KeptBytes, SegmentsFrom, Flatten;
    SegmentsAreKept(us, intervals, 0);
    FlattenOne(head);
    FlattenAppends(NonEmpty(head), SegmentsFrom(us, intervals, 0));
  }
}
