/** Comparing one watch in two windows of batches at equal run-relative times. */
module Comparison {
  import opened Basics

  const MAX_ANALYSIS_BATCHES: nat := 1_024
  const MAX_ANALYSIS_POSITIONS: nat := MAX_ANALYSIS_BATCHES * 2

  /** A type name and an integer value. */
  datatype Reading = Reading(kind: string, value: int)

  /** `reading` is absent when the sample is not a well-formed trusted value. */
  datatype Sample = Sample(watch: int, reading: Option<Reading>)

  datatype Batch = Batch(scheduled: int, values: seq<Sample>)

  /** A window in sequence: scheduled times strictly increase. */
  predicate WindowOk(w: seq<Batch>) {
    0 < |w| <= MAX_ANALYSIS_BATCHES && forall j, k :: 0 <= j < k < |w| ==> w[j].scheduled < w[k].scheduled
  }

  function Matching(values: seq<Sample>, watch: int): seq<Sample> {
    if values == [] then [] else (if values[0].watch == watch then [values[0]] else []) + Matching(values[1..], watch)
  }

  /** `_trusted_sample`: the reading of the only sample of the watch. */
  function Trusted(b: Batch, watch: int): Option<Reading> {
    var m := Matching(b.values, watch);
    if |m| == 1 then m[0].reading else None
  }

  datatype Quality = INVALID | VALID | DEGRADED

  datatype Reason =
    | INSUFFICIENT_VALID_PAIRS
    | VALUES_CHANGED
    | VALUES_UNCHANGED
    | VALUES_CHANGED_WITH_EXCLUSIONS
    | VALUES_UNCHANGED_WITH_EXCLUSIONS

  datatype Stats = Stats(first: int, last: int, least: int, most: int)

  datatype Detail = Detail(before: Stats, after: Stats, deltaFirst: int, deltaLast: int, changed: bool)

  datatype Computation = Computation(quality: Quality, completed: bool, reason: Reason, positions: nat, pairs: nat,
                                     excluded: nat, detail: Option<Detail>)

  predicate StatsOrdered(s: Stats) {
    s.least <= s.first <= s.most && s.least <= s.last <= s.most
  }

  /** The record's own validation. */
  predicate Validates(c: Computation) {
    && c.positions <= MAX_ANALYSIS_POSITIONS && c.pairs <= MAX_ANALYSIS_POSITIONS && c.excluded <= MAX_ANALYSIS_POSITIONS
    && 1 <= c.positions && c.pairs <= c.positions && c.excluded == c.positions - c.pairs
    && if c.quality.INVALID? then !c.completed && c.reason.INSUFFICIENT_VALID_PAIRS? && c.detail.None?
       else
         && c.completed && c.pairs >= 2 && c.detail.Some?
         && var d := c.detail.value;
            && c.reason == ReasonOf(d.changed, c.excluded > 0)
            && StatsOrdered(d.before) && StatsOrdered(d.after)
            && d.deltaFirst == d.after.first - d.before.first && d.deltaLast == d.after.last - d.before.last
            && (!d.changed ==> d.before == d.after)
            && (c.quality.VALID? ==> c.excluded == 0) && (c.quality.DEGRADED? ==> c.excluded > 0)
  }

  function ReasonOf(changed: bool, excluded: bool): Reason {
    if changed && excluded then VALUES_CHANGED_WITH_EXCLUSIONS
    else if excluded then VALUES_UNCHANGED_WITH_EXCLUSIONS
    else if changed then VALUES_CHANGED else VALUES_UNCHANGED
  }

  // Positions

  /** A window's batches by their time relative to `zero`. */
  function ByTime(w: seq<Batch>, zero: int): map<int, Batch> {
    if w == [] then map[] else ByTime(w[..|w| - 1], zero)[w[|w| - 1].scheduled - zero := w[|w| - 1]]
  }

  lemma {:induction false} SizeOfByTime(w: seq<Batch>, zero: int)
    ensures |ByTime(w, zero).Keys| <= |w|
    ensures w != [] ==> w[|w| - 1].scheduled - zero in ByTime(w, zero)
  {
    if w != [] {
      SizeOfByTime(w[..|w| - 1], zero);
      var m, t := ByTime(w[..|w| - 1], zero), w[|w| - 1].scheduled - zero;
      assert ByTime(w, zero).Keys == m.Keys + {t};
    }
  }

  function Times(before: seq<Batch>, after: seq<Batch>): set<int>
    requires before != [] && after != []
  {
    ByTime(before, before[0].scheduled).Keys + ByTime(after, after[0].scheduled).Keys
  }

  lemma LeastExists(s: set<int>)
    requires |s| > 0
    ensures exists x :: x in s && forall y :: y in s ==> x <= y
    decreases |s|
  {
    assert exists y :: y in s by {
      if forall y :: y !in s {
        assert false;
      }
    }
    var x :| x in s;
    if |s - {x}| > 0 {
      LeastExists(s - {x});
      var m :| m in s - {x} && forall y :: y in s - {x} ==> m <= y;
      assert forall y :: y in s ==> y == x || y in s - {x};
      var z := if x < m then x else m;
      assert z in s && forall y :: y in s ==> z <= y;
    } else {
      assert forall y :: y in s ==> y == x;
    }
  }

  predicate Ascending(times: seq<int>) {
    forall i, j :: 0 <= i < j < |times| ==> times[i] < times[j]
  }

  lemma AscendingFront(x: int, rest: seq<int>, s: set<int>)
    requires x in s && (forall y :: y in s ==> x <= y) && Ascending(rest) && forall y :: y in rest <==> y in s - {x}
    ensures Ascending([x] + rest)
  {
    forall k | 0 <= k < |rest|
      ensures x < rest[k]
    {
      assert rest[k] in rest;
    }
  }

  /** `sorted` of a set. */
  function Sorted(s: set<int>): (r: seq<int>)
    ensures |r| == |s| && (forall x :: x in r <==> x in s)
    ensures Ascending(r)
    decreases |s|
  {
    if s == {} then []
    else
      LeastExists(s);
      var x :| x in s && forall y :: y in s ==> x <= y;
      var rest := Sorted(s - {x});
      AscendingFront(x, rest, s);
      [x] + rest
  }

  // Pairs

  /** The values compared at one time, when both sides have trusted readings of one
      type. */
  function PairAt(a: map<int, Batch>, b: map<int, Batch>, watch: int, t: int): seq<(int, int)> {
    if t !in a || t !in b then []
    else
      var x, y := Trusted(a[t], watch), Trusted(b[t], watch);
      if x.None? || y.None? || x.value.kind != y.value.kind then [] else [(x.value.value, y.value.value)]
  }

  function PairsOver(a: map<int, Batch>, b: map<int, Batch>, watch: int, times: seq<int>): (r: seq<(int, int)>)
    ensures |r| <= |times|
  {
    if times == [] then [] else PairsOver(a, b, watch, times[..|times| - 1]) + PairAt(a, b, watch, times[|times| - 1])
  }

  function Pairs(before: seq<Batch>, after: seq<Batch>, watch: int): seq<(int, int)>
    requires before != [] && after != []
  {
    PairsOver(ByTime(before, before[0].scheduled), ByTime(after, after[0].scheduled), watch, Sorted(Times(before, after)))
  }

  function Lefts(ps: seq<(int, int)>): (r: seq<int>)
    ensures |r| == |ps|
  {
    seq(|ps|, k requires 0 <= k < |ps| => ps[k].0)
  }

  function Rights(ps: seq<(int, int)>): (r: seq<int>)
    ensures |r| == |ps|
  {
    seq(|ps|, k requires 0 <= k < |ps| => ps[k].1)
  }

  function Least(vs: seq<int>): (m: int)
    requires vs != []
    ensures m in vs && forall v :: v in vs ==> m <= v
  {
    if |vs| == 1 then vs[0]
    else
      var m := Least(vs[1..]);
      assert vs == [vs[0]] + vs[1..];
      if vs[0] <= m then vs[0] else m
  }

  function Most(vs: seq<int>): (m: int)
    requires vs != []
    ensures m in vs && forall v :: v in vs ==> v <= m
  {
    if |vs| == 1 then vs[0]
    else
      var m := Most(vs[1..]);
      assert vs == [vs[0]] + vs[1..];
      if vs[0] >= m then vs[0] else m
  }

  function StatsOf(vs: seq<int>): Stats
    requires vs != []
  {
    Stats(vs[0], vs[|vs| - 1], Least(vs), Most(vs))
  }

  predicate Changed(ps: seq<(int, int)>) {
    exists k :: 0 <= k < |ps| && ps[k].0 != ps[k].1
  }

  // The record

  function Recorded(ps: seq<(int, int)>, positions: nat, minimum: nat): Computation
    requires |ps| <= positions && minimum >= 2
  {
    var excluded := positions - |ps|;
    if |ps| < minimum then Computation(INVALID, false, INSUFFICIENT_VALID_PAIRS, positions, |ps|, excluded, None)
    else
      Computation(if excluded > 0 then DEGRADED else VALID, true, ReasonOf(Changed(ps), excluded > 0), positions, |ps|, excluded,
                  Some(Detail(StatsOf(Lefts(ps)), StatsOf(Rights(ps)), ps[0].1 - ps[0].0,
                              ps[|ps| - 1].1 - ps[|ps| - 1].0, Changed(ps))))
  }

  function Computed(before: seq<Batch>, after: seq<Batch>, watch: int, minimum: nat): Computation
    requires before != [] && after != [] && minimum >= 2
  {
    Recorded(Pairs(before, after, watch), |Times(before, after)|, minimum)
  }

  /** `analyze_monitor_windows` after its identity checks. */
  method AnalyzeMonitorWindows(before: seq<Batch>, after: seq<Batch>, watch: int, minimum: nat) returns (c: Computation)
    requires WindowOk(before) && WindowOk(after) && minimum >= 2
    ensures c == Computed(before, after, watch, minimum)
  {
    var beforeByTime, afterByTime := ByTime(before, before[0].scheduled), ByTime(after, after[0].scheduled);
    var positions := Sorted(beforeByTime.Keys + afterByTime.Keys);
    var pairValues: seq<(int, int)> := [];
    var i := 0;
    assert PairsOver(beforeByTime, afterByTime, watch, positions[..0]) == [];
    hide Sorted, ByTime, Matching, Trusted, PairsOver, Recorded;
    while i < |positions|
      invariant 0 <= i <= |positions|
      invariant pairValues == PairsOver(beforeByTime, afterByTime, watch, positions[..i])
    {
      OneMoreTime(beforeByTime, afterByTime, watch, positions, i);
      var position := positions[i];
      i := i + 1;
      if position !in beforeByTime || position !in afterByTime {
        continue;
      }
      var x, y := Trusted(beforeByTime[position], watch), Trusted(afterByTime[position], watch);
      if x.None? || y.None? || x.value.kind != y.value.kind {
        continue;
      }
      pairValues := pairValues + [(x.value.value, y.value.value)];
    }
    assert positions[..i] == positions;
    c := RecordPairs(pairValues, |positions|, minimum);
  }

  lemma OneMoreTime(a: map<int, Batch>, b: map<int, Batch>, watch: int, times: seq<int>, i: nat)
    requires i < |times|
    ensures PairsOver(a, b, watch, times[..i + 1]) == PairsOver(a, b, watch, times[..i]) + PairAt(a, b, watch, times[i])
  {
    assert times[..i + 1][..i] == times[..i];
  }

  /** The two forms of the record. */
  method RecordPairs(pairValues: seq<(int, int)>, positionCount: nat, minimum: nat) returns (c: Computation)
    requires |pairValues| <= positionCount && minimum >= 2
    ensures c == Recorded(pairValues, positionCount, minimum)
  {
    hide Least, Most;
    var pairCount := |pairValues|;
    var excluded := positionCount - pairCount;
    if pairCount < minimum {
      return Computation(INVALID, false, INSUFFICIENT_VALID_PAIRS, positionCount, pairCount, excluded, None);
    }
    var before, after := StatsOf(Lefts(pairValues)), StatsOf(Rights(pairValues));
    var changed := Changed(pairValues);
    var quality := if excluded > 0 then DEGRADED else VALID;
    return Computation(quality, true, ReasonOf(changed, excluded > 0), positionCount, pairCount, excluded,
                       Some(Detail(before, after, pairValues[0].1 - pairValues[0].0,
                                   pairValues[pairCount - 1].1 - pairValues[pairCount - 1].0, changed)));
  }

  // What every record satisfies

  lemma UnionSize(a: set<int>, b: set<int>)
    ensures |a + b| <= |a| + |b|
  {
    assert a + b == a + (b - a);
  }

  /** The computed record always passes its own validation; pairs and exclusions add up
      to the positions. */
  lemma RecordValidates(before: seq<Batch>, after: seq<Batch>, watch: int, minimum: nat)
    requires WindowOk(before) && WindowOk(after) && minimum >= 2
    ensures var c := Computed(before, after, watch, minimum);
            Validates(c) && c.pairs + c.excluded == c.positions
  {
    var a, b := ByTime(before, before[0].scheduled), ByTime(after, after[0].scheduled);
    SizeOfByTime(before, before[0].scheduled);
    SizeOfByTime(after, after[0].scheduled);
    UnionSize(a.Keys, b.Keys);
    var times := Times(before, after);
    assert times != {} by {
      assert before[|before| - 1].scheduled - before[0].scheduled in times;
    }
    var ps := Pairs(before, after, watch);
    hide ByTime, Sorted, PairsOver, Times, Pairs;
    RecordedValidates(ps, |times|, minimum);
  }

  lemma RecordedValidates(ps: seq<(int, int)>, positions: nat, minimum: nat)
    requires |ps| <= positions <= MAX_ANALYSIS_POSITIONS && 1 <= positions && minimum >= 2
    ensures Validates(Recorded(ps, positions, minimum))
  {
    if |ps| >= minimum {
      UnchangedStats(ps);
    }
    hide StatsOf, Lefts, Rights, Changed, StatsOrdered;
  }

  lemma UnchangedStats(ps: seq<(int, int)>)
    requires ps != []
    ensures StatsOrdered(StatsOf(Lefts(ps))) && StatsOrdered(StatsOf(Rights(ps)))
    ensures !Changed(ps) ==> Lefts(ps) == Rights(ps)
  {
    var l, r := Lefts(ps), Rights(ps);
    assert l[0] in l && l[|l| - 1] in l && r[0] in r && r[|r| - 1] in r;
  }

  // Shifting

  function Shift(w: seq<Batch>, offset: int): (r: seq<Batch>)
    ensures |r| == |w|
  {
    seq(|w|, k requires 0 <= k < |w| => w[k].(scheduled := w[k].scheduled + offset))
  }

  lemma {:induction false} ShiftedByTime(w: seq<Batch>, zero: int, offset: int)
    ensures ByTime(Shift(w, offset), zero + offset).Keys == ByTime(w, zero).Keys
    ensures forall t :: t in ByTime(w, zero) ==> ByTime(Shift(w, offset), zero + offset)[t].values == ByTime(w, zero)[t].values
  {
    if w != [] {
      ShiftedByTime(w[..|w| - 1], zero, offset);
      assert Shift(w, offset)[..|w| - 1] == Shift(w[..|w| - 1], offset);
    }
  }

  lemma {:induction false} SamePairs(a: map<int, Batch>, b: map<int, Batch>, x: map<int, Batch>, y: map<int, Batch>, watch: int, times: seq<int>)
    requires a.Keys == x.Keys && b.Keys == y.Keys
    requires forall t :: t in a ==> a[t].values == x[t].values
    requires forall t :: t in b ==> b[t].values == y[t].values
    ensures PairsOver(a, b, watch, times) == PairsOver(x, y, watch, times)
  {
    if times != [] {
      SamePairs(a, b, x, y, watch, times[..|times| - 1]);
    }
  }

  /** Moving either window in time changes nothing. */
  lemma ShiftInvariant(before: seq<Batch>, after: seq<Batch>, watch: int, minimum: nat, d: int, e: int)
    requires before != [] && after != [] && minimum >= 2
    ensures Computed(Shift(before, d), Shift(after, e), watch, minimum) == Computed(before, after, watch, minimum)
  {
    ShiftedByTime(before, before[0].scheduled, d);
    ShiftedByTime(after, after[0].scheduled, e);
    var x, y := Shift(before, d), Shift(after, e);
    assert Times(x, y) == Times(before, after);
    SamePairs(ByTime(before, before[0].scheduled), ByTime(after, after[0].scheduled),
              ByTime(x, x[0].scheduled), ByTime(y, y[0].scheduled), watch, Sorted(Times(before, after)));
  }

  // Swapping

  function Swapped(ps: seq<(int, int)>): (r: seq<(int, int)>)
    ensures |r| == |ps|
  {
    seq(|ps|, k requires 0 <= k < |ps| => (ps[k].1, ps[k].0))
  }

  lemma {:induction false} SwappedPairs(a: map<int, Batch>, b: map<int, Batch>, watch: int, times: seq<int>)
    ensures PairsOver(b, a, watch, times) == Swapped(PairsOver(a, b, watch, times))
  {
    if times != [] {
      SwappedPairs(a, b, watch, times[..|times| - 1]);
    }
  }

  /** What swapping the windows does to a record. */
  function Mirrored(c: Computation): Computation {
    if c.detail.None? then c
    else
      var d := c.detail.value;
      c.(detail := Some(Detail(d.after, d.before, -d.deltaFirst, -d.deltaLast, d.changed)))
  }

  lemma SwappedParts(ps: seq<(int, int)>)
    ensures Lefts(Swapped(ps)) == Rights(ps) && Rights(Swapped(ps)) == Lefts(ps)
    ensures Changed(Swapped(ps)) == Changed(ps)
  {
    if Changed(ps) {
      var k :| 0 <= k < |ps| && ps[k].0 != ps[k].1;
      assert Swapped(ps)[k].0 != Swapped(ps)[k].1;
    }
    if Changed(Swapped(ps)) {
      var k :| 0 <= k < |ps| && Swapped(ps)[k].0 != Swapped(ps)[k].1;
      assert ps[k].0 != ps[k].1;
    }
  }

  lemma MirroredRecord(ps: seq<(int, int)>, positions: nat, minimum: nat)
    requires |ps| <= positions && minimum >= 2
    ensures Recorded(Swapped(ps), positions, minimum) == Mirrored(Recorded(ps, positions, minimum))
  {
    SwappedParts(ps);
    hide Lefts, Rights, Changed, StatsOf;
  }

  /** Swapping the windows swaps the statistics and negates the deltas. */
  lemma SwapNegates(before: seq<Batch>, after: seq<Batch>, watch: int, minimum: nat)
    requires before != [] && after != [] && minimum >= 2
    ensures Computed(after, before, watch, minimum) == Mirrored(Computed(before, after, watch, minimum))
  {
    assert Times(after, before) == Times(before, after);
    SwappedPairs(ByTime(before, before[0].scheduled), ByTime(after, after[0].scheduled), watch, Sorted(Times(before, after)));
    var ps := Pairs(before, after, watch);
    SwappedParts(ps);
    assert Pairs(after, before, watch) == Swapped(ps);
    hide ByTime, Sorted, PairsOver, Times, Lefts, Rights, Changed, StatsOf, Pairs;
    MirroredRecord(ps, |Times(before, after)|, minimum);
  }
}
