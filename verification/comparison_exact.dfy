/** The comparison record read off the windows themselves: which times are compared,
    which values stand there, and what the record says of them. */
module ComparisonExact {
  import opened Comparison
  import opened Basics

  /** Place `i` holds the only sample of the watch. */
  ghost predicate OnlyAt(values: seq<Sample>, watch: int, i: int) {
    0 <= i < |values| && values[i].watch == watch && forall j :: 0 <= j < |values| && j != i ==> values[j].watch != watch
  }

  ghost predicate ReadsIn(values: seq<Sample>, watch: int, r: Reading) {
    exists i :: OnlyAt(values, watch, i) && values[i].reading == Some(r)
  }

  /** Batch `k` stands at time `t`, counted from the window's first batch. */
  ghost predicate IsAt(w: seq<Batch>, t: int, k: int) {
    0 <= k < |w| && w[k].scheduled == w[0].scheduled + t
  }

  /** The window has at relative time `t` a batch with exactly one sample of the watch,
      whose reading is `r`. */
  ghost predicate ReadsAt(w: seq<Batch>, watch: int, t: int, r: Reading) {
    exists k :: IsAt(w, t, k) && ReadsIn(w[k].values, watch, r)
  }

  /** Both windows have a reading of one kind at time `t`: `x` before and `y` after. */
  ghost predicate PairedAt(before: seq<Batch>, after: seq<Batch>, watch: int, t: int, x: int, y: int) {
    exists kind :: ReadsAt(before, watch, t, Reading(kind, x)) && ReadsAt(after, watch, t, Reading(kind, y))
  }

  // Readings

  lemma {:induction false} MatchingExactly(values: seq<Sample>, watch: int)
    ensures forall s :: s in Matching(values, watch) <==> s in values && s.watch == watch
    ensures Matching(values, watch) == [] <==> forall j :: 0 <= j < |values| ==> values[j].watch != watch
  {
    if values != [] {
      MatchingExactly(values[1..], watch);
      assert values == [values[0]] + values[1..];
      assert forall j :: 1 <= j < |values| ==> values[j] == values[1..][j - 1];
    }
  }

  lemma {:induction false} OneMatch(values: seq<Sample>, watch: int, i: int)
    requires OnlyAt(values, watch, i)
    ensures Matching(values, watch) == [values[i]]
  {
    var rest := values[1..];
    MatchingExactly(rest, watch);
    assert forall j :: 0 <= j < |rest| ==> rest[j] == values[j + 1];
    if i > 0 {
      OneMatch(rest, watch, i - 1);
    }
  }

  lemma {:induction false} MatchIsOnly(values: seq<Sample>, watch: int) returns (i: nat)
    requires |Matching(values, watch)| == 1
    ensures OnlyAt(values, watch, i) && Matching(values, watch) == [values[i]]
  {
    var rest := values[1..];
    MatchingExactly(rest, watch);
    assert forall j :: 0 <= j < |rest| ==> rest[j] == values[j + 1];
    if values[0].watch == watch {
      i := 0;
      assert Matching(rest, watch) == [];
    } else {
      var k := MatchIsOnly(rest, watch);
      i := k + 1;
    }
  }

  /** A batch's trusted reading is that of its only sample of the watch. */
  lemma TrustedExactly(b: Batch, watch: int, r: Reading)
    ensures Trusted(b, watch) == Some(r) <==> ReadsIn(b.values, watch, r)
  {
    if Trusted(b, watch) == Some(r) {
      var i := MatchIsOnly(b.values, watch);
    }
    if ReadsIn(b.values, watch, r) {
      var i :| OnlyAt(b.values, watch, i) && b.values[i].reading == Some(r);
      OneMatch(b.values, watch, i);
    }
  }

  function Timed(w: seq<Batch>): map<int, Batch>
    requires w != []
  {
    ByTime(w, w[0].scheduled)
  }

  ghost predicate Holds(m: map<int, Batch>, zero: int, b: Batch) {
    b.scheduled - zero in m && m[b.scheduled - zero] == b
  }

  ghost predicate Comes(w: seq<Batch>, zero: int, t: int) {
    exists k :: 0 <= k < |w| && w[k].scheduled == zero + t
  }

  /** A map of a window's batches by their times. */
  ghost predicate Lists(m: map<int, Batch>, w: seq<Batch>, zero: int) {
    && (forall k :: 0 <= k < |w| ==> Holds(m, zero, w[k]))
    && (forall t :: t in m ==> Comes(w, zero, t))
  }

  lemma HoldsMore(m: map<int, Batch>, zero: int, a: Batch, b: Batch)
    requires Holds(m, zero, a) && a.scheduled != b.scheduled
    ensures Holds(m[b.scheduled - zero := b], zero, a)
  {
  }

  lemma ComesMore(front: seq<Batch>, b: Batch, zero: int, t: int)
    requires Comes(front, zero, t) || t == b.scheduled - zero
    ensures Comes(front + [b], zero, t)
  {
    var all := front + [b];
    if Comes(front, zero, t) {
      var k :| 0 <= k < |front| && front[k].scheduled == zero + t;
      assert all[k].scheduled == zero + t;
    } else {
      assert all[|front|].scheduled == zero + t;
    }
  }

  lemma ListsMore(m: map<int, Batch>, front: seq<Batch>, b: Batch, zero: int)
    requires Lists(m, front, zero) && forall k :: 0 <= k < |front| ==> front[k].scheduled != b.scheduled
    ensures Lists(m[b.scheduled - zero := b], front + [b], zero)
  {
    var all, n := front + [b], m[b.scheduled - zero := b];
    assert Holds(n, zero, b);
    hide Holds, Comes;
    forall k | 0 <= k < |all|
      ensures Holds(n, zero, all[k])
    {
      if k < |front| {
        HoldsMore(m, zero, front[k], b);
      }
    }
    forall t | t in n
      ensures Comes(all, zero, t)
    {
      ComesMore(front, b, zero, t);
    }
  }

  lemma {:induction false} ByTimeLists(w: seq<Batch>, zero: int)
    requires forall j, k :: 0 <= j < k < |w| ==> w[j].scheduled < w[k].scheduled
    ensures Lists(ByTime(w, zero), w, zero)
  {
    hide Lists;
    if w != [] {
      var front := w[..|w| - 1];
      ByTimeLists(front, zero);
      ListsMore(ByTime(front, zero), front, w[|w| - 1], zero);
      assert front + [w[|w| - 1]] == w;
    } else {
      EmptyLists(zero);
    }
  }

  lemma EmptyLists(zero: int)
    ensures Lists(map[], [], zero)
  {
  }

  /** The batch at a relative time. */
  lemma TimedBatch(w: seq<Batch>, t: int)
    requires WindowOk(w)
    ensures t in Timed(w) <==> exists k :: IsAt(w, t, k)
    ensures forall k :: IsAt(w, t, k) ==> t in Timed(w) && Timed(w)[t] == w[k]
  {
    ByTimeLists(w, w[0].scheduled);
    TimedIs(w);
    hide ByTime, Timed, WindowOk;
    ListedAt(Timed(w), w, t);
  }

  lemma TimedIs(w: seq<Batch>)
    requires WindowOk(w)
    ensures w != [] && Timed(w) == ByTime(w, w[0].scheduled)
  {
  }

  lemma ListedHere(m: map<int, Batch>, w: seq<Batch>, t: int, k: int)
    requires w != [] && Lists(m, w, w[0].scheduled) && IsAt(w, t, k)
    ensures t in m && m[t] == w[k]
  {
    hide Comes;
    assert Holds(m, w[0].scheduled, w[k]) && w[k].scheduled - w[0].scheduled == t;
  }

  lemma ListedWhere(m: map<int, Batch>, w: seq<Batch>, t: int) returns (k: int)
    requires w != [] && Lists(m, w, w[0].scheduled) && t in m
    ensures IsAt(w, t, k)
  {
    hide Holds;
    assert Comes(w, w[0].scheduled, t);
    k :| 0 <= k < |w| && w[k].scheduled == w[0].scheduled + t;
  }

  lemma ListedAt(m: map<int, Batch>, w: seq<Batch>, t: int)
    requires w != [] && Lists(m, w, w[0].scheduled)
    ensures t in m <==> exists k :: IsAt(w, t, k)
    ensures forall k :: IsAt(w, t, k) ==> t in m && m[t] == w[k]
  {
    hide Lists;
    if t in m {
      var k := ListedWhere(m, w, t);
    }
    forall k | IsAt(w, t, k)
      ensures t in m && m[t] == w[k]
    {
      ListedHere(m, w, t, k);
    }
  }

  lemma TimedExactly(w: seq<Batch>, watch: int, t: int, r: Reading)
    requires WindowOk(w)
    ensures (t in Timed(w) && Trusted(Timed(w)[t], watch) == Some(r)) <==> ReadsAt(w, watch, t, r)
  {
    TimedBatch(w, t);
    hide Trusted, ReadsIn, ByTime, IsAt, WindowOk, Timed;
    if t in Timed(w) && Trusted(Timed(w)[t], watch) == Some(r) {
      var k :| IsAt(w, t, k);
      TrustedExactly(Timed(w)[t], watch, r);
      assert IsAt(w, t, k) && Timed(w)[t] == w[k];
    }
    if ReadsAt(w, watch, t, r) {
      var k :| IsAt(w, t, k) && ReadsIn(w[k].values, watch, r);
      TrustedExactly(w[k], watch, r);
    }
  }

  lemma PairExactly(before: seq<Batch>, after: seq<Batch>, watch: int, t: int, x: int, y: int)
    requires WindowOk(before) && WindowOk(after)
    ensures PairAt(Timed(before), Timed(after), watch, t) == [(x, y)] <==> PairedAt(before, after, watch, t, x, y)
  {
    var a, b := Timed(before), Timed(after);
    forall kind
      ensures (t in a && Trusted(a[t], watch) == Some(Reading(kind, x))) <==> ReadsAt(before, watch, t, Reading(kind, x))
      ensures (t in b && Trusted(b[t], watch) == Some(Reading(kind, y))) <==> ReadsAt(after, watch, t, Reading(kind, y))
    {
      TimedExactly(before, watch, t, Reading(kind, x));
      TimedExactly(after, watch, t, Reading(kind, y));
    }
    hide Trusted, ReadsAt, Timed, WindowOk;
    if PairAt(a, b, watch, t) == [(x, y)] {
      var kind := Trusted(a[t], watch).value.kind;
      assert Trusted(a[t], watch) == Some(Reading(kind, x)) && Trusted(b[t], watch) == Some(Reading(kind, y));
    }
  }

  lemma PairIsOne(a: map<int, Batch>, b: map<int, Batch>, watch: int, t: int)
    ensures PairAt(a, b, watch, t) == [] || exists x, y :: PairAt(a, b, watch, t) == [(x, y)]
  {
    hide Trusted;
    if PairAt(a, b, watch, t) != [] {
      var x, y := Trusted(a[t], watch).value.value, Trusted(b[t], watch).value.value;
      assert PairAt(a, b, watch, t) == [(x, y)];
    }
  }

  // The compared times

  /** The times at which a pair stands. */
  function PairedTimes(a: map<int, Batch>, b: map<int, Batch>, watch: int, times: seq<int>): (r: seq<int>)
    ensures forall t :: t in r <==> t in times && PairAt(a, b, watch, t) != []
  {
    if times == [] then []
    else
      var t := times[|times| - 1];
      PairedTimes(a, b, watch, times[..|times| - 1]) + (if PairAt(a, b, watch, t) != [] then [t] else [])
  }

  lemma {:induction false} PairedAscend(a: map<int, Batch>, b: map<int, Batch>, watch: int, times: seq<int>)
    requires Ascending(times)
    ensures Ascending(PairedTimes(a, b, watch, times))
  {
    if times != [] {
      var front, t := times[..|times| - 1], times[|times| - 1];
      PairedAscend(a, b, watch, front);
      var ts := PairedTimes(a, b, watch, front);
      PairedFront(a, b, watch, times);
      assert forall x :: x in ts ==> x in front;
      assert front + [t] == times;
      hide PairAt, PairedTimes;
      AscendingMore(front, t, ts);
    }
  }

  lemma PairedFront(a: map<int, Batch>, b: map<int, Batch>, watch: int, times: seq<int>)
    requires times != []
    ensures var (front, t) := (times[..|times| - 1], times[|times| - 1]);
            PairedTimes(a, b, watch, times) == PairedTimes(a, b, watch, front)
            || PairedTimes(a, b, watch, times) == PairedTimes(a, b, watch, front) + [t]
  {
    hide PairAt;
  }

  /** Behind some of the earlier times comes the last one. */
  lemma AscendingMore(front: seq<int>, t: int, ts: seq<int>)
    requires Ascending(front + [t]) && Ascending(ts) && forall x :: x in ts ==> x in front
    ensures Ascending(ts + [t])
  {
    forall k | 0 <= k < |ts|
      ensures ts[k] < t
    {
      assert ts[k] in ts;
      var j :| 0 <= j < |front| && front[j] == ts[k];
      assert (front + [t])[j] == ts[k] && (front + [t])[|front|] == t;
    }
  }

  lemma {:induction false} PairsAlign(a: map<int, Batch>, b: map<int, Batch>, watch: int, times: seq<int>)
    ensures var ps, ts := PairsOver(a, b, watch, times), PairedTimes(a, b, watch, times);
            |ps| == |ts| && forall k :: 0 <= k < |ps| ==> PairAt(a, b, watch, ts[k]) == [ps[k]]
  {
    if times != [] {
      PairsAlign(a, b, watch, times[..|times| - 1]);
      PairIsOne(a, b, watch, times[|times| - 1]);
      hide PairAt;
    }
  }

  /** The values of the pairs stand at these times, in ascending order. */
  ghost predicate PairsStand(before: seq<Batch>, after: seq<Batch>, watch: int, ps: seq<(int, int)>, ts: seq<int>) {
    && |ps| == |ts| && Ascending(ts)
    && (forall k :: 0 <= k < |ps| ==> PairedAt(before, after, watch, ts[k], ps[k].0, ps[k].1))
    && forall t, x, y :: PairedAt(before, after, watch, t, x, y) ==> t in ts
  }

  lemma PairedIsTimed(before: seq<Batch>, after: seq<Batch>, watch: int, t: int, x: int, y: int)
    requires WindowOk(before) && WindowOk(after) && PairedAt(before, after, watch, t, x, y)
    ensures t in Sorted(Times(before, after)) && PairAt(Timed(before), Timed(after), watch, t) != []
  {
    PairExactly(before, after, watch, t, x, y);
    hide Sorted, ByTime, PairedAt, Trusted;
  }

  lemma PairsAreStanding(before: seq<Batch>, after: seq<Batch>, watch: int)
    requires WindowOk(before) && WindowOk(after)
    ensures exists ts :: PairsStand(before, after, watch, Pairs(before, after, watch), ts)
  {
    var ts := PairedTimes(Timed(before), Timed(after), watch, Sorted(Times(before, after)));
    StandingPairs(before, after, watch, ts);
    hide *;
    EachIsPaired(before, after, watch, Pairs(before, after, watch), ts);
    EachIsTimed(before, after, watch, ts);
    TheyStand(before, after, watch, Pairs(before, after, watch), ts);
  }

  lemma StandingPairs(before: seq<Batch>, after: seq<Batch>, watch: int, ts: seq<int>)
    requires WindowOk(before) && WindowOk(after)
    requires ts == PairedTimes(Timed(before), Timed(after), watch, Sorted(Times(before, after)))
    ensures var ps := Pairs(before, after, watch);
            && |ps| == |ts| && Ascending(ts)
            && (forall k :: 0 <= k < |ps| ==> PairAt(Timed(before), Timed(after), watch, ts[k]) == [ps[k]])
            && forall t :: t in Sorted(Times(before, after)) && PairAt(Timed(before), Timed(after), watch, t) != [] ==> t in ts
  {
    hide Sorted, PairsOver, PairAt, ByTime, Times, PairedTimes;
    PairsAlign(Timed(before), Timed(after), watch, Sorted(Times(before, after)));
    PairedAscend(Timed(before), Timed(after), watch, Sorted(Times(before, after)));
  }

  lemma TheyStand(before: seq<Batch>, after: seq<Batch>, watch: int, ps: seq<(int, int)>, ts: seq<int>)
    requires |ps| == |ts| && Ascending(ts)
    requires forall k :: 0 <= k < |ps| ==> PairedAt(before, after, watch, ts[k], ps[k].0, ps[k].1)
    requires forall t, x, y :: PairedAt(before, after, watch, t, x, y) ==> t in ts
    ensures PairsStand(before, after, watch, ps, ts)
  {
    hide PairedAt, Ascending;
  }

  lemma EachIsPaired(before: seq<Batch>, after: seq<Batch>, watch: int, ps: seq<(int, int)>, ts: seq<int>)
    requires WindowOk(before) && WindowOk(after) && |ps| == |ts|
    requires forall k :: 0 <= k < |ps| ==> PairAt(Timed(before), Timed(after), watch, ts[k]) == [ps[k]]
    ensures forall k :: 0 <= k < |ps| ==> PairedAt(before, after, watch, ts[k], ps[k].0, ps[k].1)
  {
    hide PairAt, PairedAt, WindowOk, Timed;
    forall k | 0 <= k < |ps|
      ensures PairedAt(before, after, watch, ts[k], ps[k].0, ps[k].1)
    {
      PairExactly(before, after, watch, ts[k], ps[k].0, ps[k].1);
    }
  }

  lemma EachIsTimed(before: seq<Batch>, after: seq<Batch>, watch: int, ts: seq<int>)
    requires WindowOk(before) && WindowOk(after)
    requires forall t :: t in Sorted(Times(before, after)) && PairAt(Timed(before), Timed(after), watch, t) != [] ==> t in ts
    ensures forall t, x, y :: PairedAt(before, after, watch, t, x, y) ==> t in ts
  {
    hide PairAt, PairedAt, WindowOk, Timed, Sorted, Times;
    forall t, x, y | PairedAt(before, after, watch, t, x, y)
      ensures t in ts
    {
      PairedIsTimed(before, after, watch, t, x, y);
    }
  }

  /** Two readings at one time are one. */
  lemma PairedOnce(before: seq<Batch>, after: seq<Batch>, watch: int, t: int, x: int, y: int, u: int, v: int)
    requires WindowOk(before) && WindowOk(after)
    requires PairedAt(before, after, watch, t, x, y) && PairedAt(before, after, watch, t, u, v)
    ensures x == u && y == v
  {
    PairExactly(before, after, watch, t, x, y);
    PairExactly(before, after, watch, t, u, v);
    hide PairAt, PairedAt;
    var one := PairAt(Timed(before), Timed(after), watch, t);
    assert one[0] == (x, y) && one[0] == (u, v);
  }

  // The record

  /** What the statistics of one side say of the values at the compared times. */
  ghost predicate Describes(s: Stats, vs: seq<int>) {
    && vs != [] && s.first == vs[0] && s.last == vs[|vs| - 1]
    && s.least in vs && s.most in vs && forall k :: 0 <= k < |vs| ==> s.least <= vs[k] <= s.most
  }

  /** What a record says of the pairs it was computed from. */
  ghost predicate Says(c: Computation, ps: seq<(int, int)>, minimum: nat) {
    && c.pairs == |ps| && (c.detail.Some? <==> |ps| >= minimum) && (c.completed <==> |ps| >= minimum)
    && (c.detail.Some? ==>
          var d := c.detail.value;
          && Describes(d.before, Lefts(ps)) && Describes(d.after, Rights(ps))
          && d.deltaFirst == d.after.first - d.before.first && d.deltaLast == d.after.last - d.before.last
          && (d.changed <==> exists k :: 0 <= k < |ps| && ps[k].0 != ps[k].1)
          && (c.reason.VALUES_CHANGED? || c.reason.VALUES_CHANGED_WITH_EXCLUSIONS? <==> d.changed)
          && (c.reason.VALUES_UNCHANGED? || c.reason.VALUES_UNCHANGED_WITH_EXCLUSIONS? <==> !d.changed))
  }

  lemma RecordedSays(ps: seq<(int, int)>, positions: nat, minimum: nat)
    requires |ps| <= positions && minimum >= 2
    ensures Says(Recorded(ps, positions, minimum), ps, minimum)
  {
    if |ps| >= minimum {
      StatsDescribe(Lefts(ps));
      StatsDescribe(Rights(ps));
    }
    hide Describes, Least, Most;
  }

  lemma StatsDescribe(vs: seq<int>)
    requires vs != []
    ensures Describes(StatsOf(vs), vs)
  {
    assert forall k :: 0 <= k < |vs| ==> vs[k] in vs;
  }

  /** The record says what the values at the times are at which both windows have one
      reading of one kind. */
  lemma RecordExactly(before: seq<Batch>, after: seq<Batch>, watch: int, minimum: nat)
    requires WindowOk(before) && WindowOk(after) && minimum >= 2
    ensures exists ps, ts :: PairsStand(before, after, watch, ps, ts) && Says(Computed(before, after, watch, minimum), ps, minimum)
  {
    hide Sorted, PairsOver, ByTime, PairsStand, Says, Recorded;
    PairsAreStanding(before, after, watch);
    var ps := Pairs(before, after, watch);
    var ts :| PairsStand(before, after, watch, ps, ts);
    RecordedSays(ps, |Times(before, after)|, minimum);
  }

  /** A completed record says "unchanged" exactly if the values agree at every such time. */
  lemma ChangedExactly(before: seq<Batch>, after: seq<Batch>, watch: int, minimum: nat)
    requires WindowOk(before) && WindowOk(after) && minimum >= 2
    requires Computed(before, after, watch, minimum).detail.Some?
    ensures Computed(before, after, watch, minimum).detail.value.changed <==>
              exists t, x, y :: PairedAt(before, after, watch, t, x, y) && x != y
  {
    RecordExactly(before, after, watch, minimum);
    var c := Computed(before, after, watch, minimum);
    hide Computed, WindowOk, PairedAt;
    var ps: seq<(int, int)>, ts: seq<int> :| PairsStand(before, after, watch, ps, ts) && Says(c, ps, minimum);
    if k :| 0 <= k < |ps| && ps[k].0 != ps[k].1 {
      assert PairedAt(before, after, watch, ts[k], ps[k].0, ps[k].1);
    }
    if t, x, y :| PairedAt(before, after, watch, t, x, y) && x != y {
      var k :| 0 <= k < |ts| && ts[k] == t;
      PairedOnce(before, after, watch, t, x, y, ps[k].0, ps[k].1);
    }
  }

  /** The compared positions are the times of either window, and a time is excluded
      exactly if no pair stands there. */
  lemma PositionsExactly(before: seq<Batch>, after: seq<Batch>, t: int)
    requires WindowOk(before) && WindowOk(after)
    ensures t in Times(before, after) <==> (exists k :: IsAt(before, t, k)) || exists k :: IsAt(after, t, k)
  {
    TimedBatch(before, t);
    TimedBatch(after, t);
    hide ByTime, IsAt;
  }
}
