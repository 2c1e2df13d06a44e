/** Gluing the slices of history pages back into whole batches: two consumers written
    independently, one specification. */
module Reassembly {
  import opened Basics
  import opened HistoryPages

  const MAX_REPLAY_BATCHES: nat := 1_024

  /** What a slice repeats about its batch; `space` is the workspace and session. */
  datatype Header = Header(space: int, run: int, sequence: int, evidence: Meta, total: nat)

  datatype Fragment = Fragment(header: Header, start: nat, values: seq<Value>)

  datatype Whole = Whole(header: Header, values: seq<Value>)

  /** One consumer tells batches apart by space, run and sequence, the other by run
      and sequence alone. */
  predicate SameKey(wide: bool, a: Header, b: Header) {
    (wide ==> a.space == b.space) && a.run == b.run && a.sequence == b.sequence
  }

  // What a window of fragments must be, fragment by fragment

  predicate NoneEmpty(fs: seq<Fragment>) {
    forall i :: 0 <= i < |fs| ==> fs[i].values != []
  }

  /** A batch is never reopened. */
  predicate Contiguous(wide: bool, fs: seq<Fragment>) {
    forall i, j, k :: 0 <= i < j < k < |fs| && SameKey(wide, fs[i].header, fs[k].header) ==>
      SameKey(wide, fs[i].header, fs[j].header)
  }

  predicate Unchanged(wide: bool, fs: seq<Fragment>) {
    forall i, j :: 0 <= i < j < |fs| && SameKey(wide, fs[i].header, fs[j].header) ==> fs[i].header == fs[j].header
  }

  function Continues(wide: bool, fs: seq<Fragment>, i: nat): bool
    requires i < |fs|
  {
    i > 0 && SameKey(wide, fs[i - 1].header, fs[i].header)
  }

  function End(f: Fragment): nat {
    f.start + |f.values|
  }

  predicate SeamlessAt(wide: bool, fs: seq<Fragment>, i: nat)
    requires i < |fs|
  {
    fs[i].start == if Continues(wide, fs, i) then End(fs[i - 1]) else 0
  }

  /** No gap and no overlap. */
  predicate Seamless(wide: bool, fs: seq<Fragment>) {
    forall i :: 0 <= i < |fs| ==> SeamlessAt(wide, fs, i)
  }

  /** Where a batch's fragments end, its values are all there. */
  predicate CompleteAt(wide: bool, fs: seq<Fragment>, i: nat)
    requires i < |fs|
  {
    (i + 1 == |fs| || !Continues(wide, fs, i + 1)) ==> End(fs[i]) == fs[i].header.total
  }

  predicate Complete(wide: bool, fs: seq<Fragment>) {
    forall i :: 0 <= i < |fs| ==> CompleteAt(wide, fs, i)
  }

  /** A window that is not refused yet. */
  predicate Started(wide: bool, fs: seq<Fragment>) {
    NoneEmpty(fs) && Contiguous(wide, fs) && Unchanged(wide, fs) && Seamless(wide, fs)
  }

  predicate Coherent(wide: bool, fs: seq<Fragment>) {
    Started(wide, fs) && Complete(wide, fs)
  }

  /** The batches of a window: values of one key, concatenated in order. */
  function Glued(wide: bool, fs: seq<Fragment>): seq<Whole> {
    if fs == [] then []
    else Glue(wide, Glued(wide, fs[..|fs| - 1]), fs[|fs| - 1])
  }

  function Glue(wide: bool, g: seq<Whole>, f: Fragment): seq<Whole> {
    if g != [] && SameKey(wide, g[|g| - 1].header, f.header) then
      g[..|g| - 1] + [Whole(g[|g| - 1].header, g[|g| - 1].values + f.values)]
    else g + [Whole(f.header, f.values)]
  }

  function Count(fs: seq<Fragment>): nat {
    if fs == [] then 0 else Count(fs[..|fs| - 1]) + |fs[|fs| - 1].values|
  }

  // The batches glued so far decide everything about the next fragment

  predicate Accepts(wide: bool, g: seq<Whole>, f: Fragment) {
    && f.values != []
    && if g != [] && SameKey(wide, g[|g| - 1].header, f.header) then
         g[|g| - 1].header == f.header && f.start == |g[|g| - 1].values|
       else f.start == 0 && forall k :: 0 <= k < |g| ==> !SameKey(wide, g[k].header, f.header)
  }

  function FragmentHeaders(fs: seq<Fragment>): set<Header> {
    set f | f in fs :: f.header
  }

  function WholeHeaders(g: seq<Whole>): set<Header> {
    set w | w in g :: w.header
  }

  /** The glued batches mirror their fragments. */
  ghost predicate Mirrors(wide: bool, g: seq<Whole>, fs: seq<Fragment>) {
    && (g == [] <==> fs == [])
    && (fs != [] ==> g[|g| - 1].header == fs[|fs| - 1].header && |g[|g| - 1].values| == End(fs[|fs| - 1]))
    && WholeHeaders(g) == FragmentHeaders(fs)
  }

  ghost predicate AllComplete(g: seq<Whole>) {
    forall k :: 0 <= k < |g| ==> |g[k].values| == g[k].header.total
  }

  predicate FreshKey(wide: bool, headers: set<Header>, h: Header) {
    forall x :: x in headers ==> !SameKey(wide, x, h)
  }

  lemma StartedPrefix(wide: bool, fs: seq<Fragment>, p: nat)
    requires p <= |fs| && Started(wide, fs)
    ensures Started(wide, fs[..p])
  {
    var part := fs[..p];
    assert Seamless(wide, part) by {
      forall i | 0 <= i < p
        ensures SeamlessAt(wide, part, i)
      {
        assert SeamlessAt(wide, fs, i);
      }
    }
  }

  /** Whether a fragment continues a window, in terms of the window's headers. */
  predicate Joins(wide: bool, fs: seq<Fragment>, f: Fragment) {
    && f.values != []
    && if fs != [] && SameKey(wide, fs[|fs| - 1].header, f.header) then
         fs[|fs| - 1].header == f.header && f.start == End(fs[|fs| - 1])
       else f.start == 0 && FreshKey(wide, FragmentHeaders(fs), f.header)
  }

  lemma StartedJoins(wide: bool, fs: seq<Fragment>, f: Fragment)
    requires Started(wide, fs + [f])
    ensures Joins(wide, fs, f)
  {
    var all, n := fs + [f], |fs|;
    assert all[n] == f && SeamlessAt(wide, all, n);
    if !Continues(wide, all, n) {
      forall x | x in FragmentHeaders(fs)
        ensures !SameKey(wide, x, f.header)
      {
        var i :| 0 <= i < n && fs[i].header == x;
        assert all[i] == fs[i] && all[n - 1] == fs[n - 1];
        if SameKey(wide, x, f.header) {
          EarlierSame(wide, all, i);
        }
      }
    }
  }

  /** In a contiguous window an earlier fragment of the last key makes the one before
      the last of that key too. */
  lemma EarlierSame(wide: bool, fs: seq<Fragment>, i: nat)
    requires Contiguous(wide, fs) && i + 1 < |fs| && SameKey(wide, fs[i].header, fs[|fs| - 1].header)
    ensures SameKey(wide, fs[|fs| - 2].header, fs[|fs| - 1].header)
  {
    if i < |fs| - 2 {
      assert SameKey(wide, fs[i].header, fs[|fs| - 2].header);
    }
  }

  lemma JoinsStarts(wide: bool, fs: seq<Fragment>, f: Fragment)
    requires Started(wide, fs) && Joins(wide, fs, f)
    ensures Started(wide, fs + [f])
  {
    var all, n := fs + [f], |fs|;
    forall i | 0 <= i < |all|
      ensures SeamlessAt(wide, all, i)
    {
      if i < n {
        assert SeamlessAt(wide, fs, i);
      }
    }
    JoinsUnchanged(wide, fs, f);
    JoinsContiguous(wide, fs, f);
  }

  /** An earlier fragment of the joining key means that the last one is of that key too. */
  lemma EarlierKey(wide: bool, fs: seq<Fragment>, f: Fragment, i: nat)
    requires i < |fs| && Joins(wide, fs, f) && SameKey(wide, fs[i].header, f.header)
    ensures SameKey(wide, fs[|fs| - 1].header, f.header) && fs[|fs| - 1].header == f.header
  {
    assert fs[i].header in FragmentHeaders(fs);
  }

  lemma JoinsUnchanged(wide: bool, fs: seq<Fragment>, f: Fragment)
    requires Unchanged(wide, fs) && Joins(wide, fs, f)
    ensures Unchanged(wide, fs + [f])
  {
    hide Joins;
    var all, n := fs + [f], |fs|;
    forall i, j | 0 <= i < j < |all| && SameKey(wide, all[i].header, all[j].header)
      ensures all[i].header == all[j].header
    {
      if j == n {
        EarlierKey(wide, fs, f, i);
        assert i < n - 1 ==> fs[i].header == fs[n - 1].header;
      }
    }
  }

  lemma JoinsContiguous(wide: bool, fs: seq<Fragment>, f: Fragment)
    requires Contiguous(wide, fs) && Joins(wide, fs, f)
    ensures Contiguous(wide, fs + [f])
  {
    hide Joins;
    var all, n := fs + [f], |fs|;
    forall i, j, k | 0 <= i < j < k < |all| && SameKey(wide, all[i].header, all[k].header)
      ensures SameKey(wide, all[i].header, all[j].header)
    {
      if k == n {
        EarlierKey(wide, fs, f, i);
        assert j < n - 1 ==> SameKey(wide, fs[i].header, fs[j].header);
      }
    }
  }

  lemma {:induction false} GluedMirrors(wide: bool, fs: seq<Fragment>)
    requires Started(wide, fs)
    ensures Mirrors(wide, Glued(wide, fs), fs)
    decreases |fs|
  {
    hide Started, Joins, Mirrors;
    if fs == [] {
      MirrorsNothing(wide);
    } else {
      var n := |fs| - 1;
      assert fs == fs[..n] + [fs[n]];
      StartedPrefix(wide, fs, n);
      GluedMirrors(wide, fs[..n]);
      StartedJoins(wide, fs[..n], fs[n]);
      MirrorsNext(wide, Glued(wide, fs[..n]), fs[..n], fs[n]);
    }
  }

  lemma MirrorsNothing(wide: bool)
    ensures Mirrors(wide, [], [])
  {
  }

  lemma MirrorsNext(wide: bool, g: seq<Whole>, fs: seq<Fragment>, f: Fragment)
    requires Mirrors(wide, g, fs) && Joins(wide, fs, f)
    ensures Mirrors(wide, Glue(wide, g, f), fs + [f])
  {
    var h := Glue(wide, g, f);
    FragmentHeadersGrow(fs, f);
    if g != [] && SameKey(wide, g[|g| - 1].header, f.header) {
      var last := g[|g| - 1];
      assert g == g[..|g| - 1] + [last];
      WholeHeadersGrow(g[..|g| - 1], last);
      WholeHeadersGrow(g[..|g| - 1], Whole(last.header, last.values + f.values));
    } else {
      WholeHeadersGrow(g, Whole(f.header, f.values));
    }
  }

  lemma FragmentHeadersGrow(fs: seq<Fragment>, f: Fragment)
    ensures FragmentHeaders(fs + [f]) == FragmentHeaders(fs) + {f.header}
  {
    assert forall x :: x in fs + [f] <==> x in fs || x == f;
  }

  lemma WholeHeadersGrow(g: seq<Whole>, w: Whole)
    ensures WholeHeaders(g + [w]) == WholeHeaders(g) + {w.header}
  {
    assert forall x :: x in g + [w] <==> x in g || x == w;
  }

  /** The batches glued so far decide which fragment may come next. */
  lemma AcceptsIsJoins(wide: bool, g: seq<Whole>, fs: seq<Fragment>, f: Fragment)
    requires Mirrors(wide, g, fs)
    ensures Accepts(wide, g, f) <==> Joins(wide, fs, f)
  {
    if forall k :: 0 <= k < |g| ==> !SameKey(wide, g[k].header, f.header) {
      forall x | x in WholeHeaders(g)
        ensures !SameKey(wide, x, f.header)
      {
        var k :| 0 <= k < |g| && g[k].header == x;
      }
      assert FreshKey(wide, FragmentHeaders(fs), f.header);
    }
    if FreshKey(wide, FragmentHeaders(fs), f.header) {
      forall k | 0 <= k < |g|
        ensures !SameKey(wide, g[k].header, f.header)
      {
        assert g[k].header in WholeHeaders(g);
      }
    }
  }

  /** The next fragment keeps the window going exactly when it is accepted. */
  lemma StartedNext(wide: bool, fs: seq<Fragment>, f: Fragment)
    requires Started(wide, fs)
    ensures Started(wide, fs + [f]) <==> Accepts(wide, Glued(wide, fs), f)
    ensures Mirrors(wide, Glued(wide, fs), fs)
    ensures Glued(wide, fs + [f]) == Glue(wide, Glued(wide, fs), f)
  {
    GluedMirrors(wide, fs);
    assert (fs + [f])[..|fs|] == fs;
    AcceptsIsJoins(wide, Glued(wide, fs), fs, f);
    hide Mirrors, Started, Joins, Accepts;
    if Started(wide, fs + [f]) {
      StartedJoins(wide, fs, f);
    }
    if Joins(wide, fs, f) {
      JoinsStarts(wide, fs, f);
    }
  }

  // Completeness

  /** All batches but the last are complete: fragment by fragment, batch by batch. */
  lemma {:induction false} DoneMeansComplete(wide: bool, fs: seq<Fragment>)
    requires Started(wide, fs) && fs != []
    ensures Glued(wide, fs) != []
    ensures (forall i :: 0 <= i < |fs| - 1 ==> CompleteAt(wide, fs, i)) <==> AllComplete(Glued(wide, fs)[..|Glued(wide, fs)| - 1])
    decreases |fs|
  {
    hide Started, AllComplete, FragmentHeaders, WholeHeaders, CompleteAt;
    var n := |fs| - 1;
    GluedMirrors(wide, fs);
    var g := Glued(wide, fs);
    if n == 0 {
      assert g[..|g| - 1] == [];
      AllCompleteGrows([], g[0]);
    } else {
      StartedPrefix(wide, fs, n);
      GluedMirrors(wide, fs[..n]);
      DoneMeansComplete(wide, fs[..n]);
      SameCompleteness(wide, fs, n);
      var h := Glued(wide, fs[..n]);
      assert fs[..n][n - 1] == fs[n - 1];
      if Continues(wide, fs, n) {
        assert g[..|g| - 1] == h[..|h| - 1];
      } else {
        assert g[..|g| - 1] == h == h[..|h| - 1] + [h[|h| - 1]];
        AllCompleteGrows(h[..|h| - 1], h[|h| - 1]);
      }
    }
  }

  lemma SameCompleteness(wide: bool, fs: seq<Fragment>, n: nat)
    requires 1 <= n && n + 1 == |fs|
    ensures forall i :: 0 <= i < n - 1 ==> CompleteAt(wide, fs[..n], i) == CompleteAt(wide, fs, i)
    ensures CompleteAt(wide, fs, n - 1) <==> Continues(wide, fs, n) || End(fs[n - 1]) == fs[n - 1].header.total
    ensures (forall i :: 0 <= i < n ==> CompleteAt(wide, fs, i)) <==>
            CompleteAt(wide, fs, n - 1) && forall i :: 0 <= i < n - 1 ==> CompleteAt(wide, fs, i)
  {
    assert forall i :: 1 <= i < n ==> Continues(wide, fs[..n], i) == Continues(wide, fs, i);
  }

  lemma AllCompleteGrows(g: seq<Whole>, w: Whole)
    ensures AllComplete(g + [w]) <==> AllComplete(g) && |w.values| == w.header.total
    ensures AllComplete([])
  {
    assert (g + [w])[|g|] == w;
    assert forall k :: 0 <= k < |g| ==> (g + [w])[k] == g[k];
  }

  /** A started window is complete exactly when its batches are. */
  lemma CompleteMeans(wide: bool, fs: seq<Fragment>)
    requires Started(wide, fs)
    ensures Complete(wide, fs) <==> AllComplete(Glued(wide, fs))
  {
    hide Started, SameKey, Continues, Glue;
    if fs != [] {
      var n, g := |fs| - 1, Glued(wide, fs);
      DoneMeansComplete(wide, fs);
      GluedMirrors(wide, fs);
      assert CompleteAt(wide, fs, n) <==> End(fs[n]) == fs[n].header.total;
      assert g == g[..|g| - 1] + [g[|g| - 1]];
      AllCompleteGrows(g[..|g| - 1], g[|g| - 1]);
    }
  }

  /** In a coherent window no fragment reaches behind its batch's values. */
  lemma {:induction false} NoneExceeds(wide: bool, fs: seq<Fragment>, i: nat)
    requires Coherent(wide, fs) && i < |fs|
    ensures End(fs[i]) <= fs[i].header.total
    decreases |fs| - i
  {
    assert CompleteAt(wide, fs, i);
    if i + 1 < |fs| && Continues(wide, fs, i + 1) {
      NoneExceeds(wide, fs, i + 1);
      assert SeamlessAt(wide, fs, i + 1);
    }
  }

  // What both consumers compute

  function Key(h: Header): (int, int) {
    (h.run, h.sequence)
  }

  function Named(g: seq<Whole>): (r: seq<(int, int)>)
    ensures |r| == |g|
  {
    seq(|g|, k requires 0 <= k < |g| => Key(g[k].header))
  }

  function Expected(run: int, from: int, to: int): seq<(int, int)> {
    seq(if from <= to then to - from else 0, k => (run, from + k))
  }

  /** The wanted sequence window of a run. */
  datatype Wanted = Wanted(run: int, from: int, to: int)

  /** The batches of a window, or refusal. */
  function Window(wide: bool, fs: seq<Fragment>, w: Wanted, atMost: nat): Option<seq<Whole>> {
    if && fs != [] && Coherent(wide, fs) && Count(fs) <= MAX_HISTORY_VALUES
       && |Glued(wide, fs)| <= atMost && Named(Glued(wide, fs)) == Expected(w.run, w.from, w.to)
    then Some(Glued(wide, fs)) else None
  }

  lemma {:induction false} PrefixCounts(wide: bool, fs: seq<Fragment>, p: nat)
    requires p <= |fs|
    ensures Count(fs[..p]) <= Count(fs) && |Glued(wide, fs[..p])| <= |Glued(wide, fs)|
    decreases |fs|
  {
    if p < |fs| {
      assert fs[..|fs| - 1][..p] == fs[..p];
      PrefixCounts(wide, fs[..|fs| - 1], p);
    } else {
      assert fs[..p] == fs;
    }
  }

  /** Why a prefix decides: each reason to refuse it refuses the window. */
  lemma PrefixRefuses(wide: bool, fs: seq<Fragment>, p: nat, w: Wanted, atMost: nat)
    requires p <= |fs| && Started(wide, fs[..p])
    requires || (p < |fs| && !Accepts(wide, Glued(wide, fs[..p]), fs[p]))
             || (0 < p < |fs| && !Continues(wide, fs, p) && End(fs[p - 1]) != fs[p - 1].header.total)
             || (p > 0 && End(fs[p - 1]) > fs[p - 1].header.total)
             || Count(fs[..p]) > MAX_HISTORY_VALUES || |Glued(wide, fs[..p])| > atMost
    ensures Window(wide, fs, w, atMost) == None
  {
    hide Started, Accepts, Complete, Glue, Glued, Count;
    PrefixCounts(wide, fs, p);
    if Coherent(wide, fs) {
      if p > 0 {
        LastOfPrefix(wide, fs, p);
      }
      if p < |fs| {
        StartedPrefix(wide, fs, p + 1);
        assert fs[..p + 1] == fs[..p] + [fs[p]];
        StartedNext(wide, fs[..p], fs[p]);
      }
    }
  }

  lemma LastOfPrefix(wide: bool, fs: seq<Fragment>, p: nat)
    requires Coherent(wide, fs) && 0 < p <= |fs|
    ensures End(fs[p - 1]) <= fs[p - 1].header.total
    ensures p < |fs| && !Continues(wide, fs, p) ==> End(fs[p - 1]) == fs[p - 1].header.total
  {
    NoneExceeds(wide, fs, p - 1);
    assert CompleteAt(wide, fs, p - 1);
  }

  // The consumer of physical history: done batches and a current one

  function ValueCount(g: seq<Whole>): nat {
    if g == [] then 0 else ValueCount(g[..|g| - 1]) + |g[|g| - 1].values|
  }

  lemma ValueCountGrows(g: seq<Whole>, w: Whole)
    ensures ValueCount(g + [w]) == ValueCount(g) + |w.values|
  {
    assert (g + [w])[..|g|] == g;
  }

  lemma GlueCounts(wide: bool, g: seq<Whole>, f: Fragment)
    ensures ValueCount(Glue(wide, g, f)) == ValueCount(g) + |f.values|
  {
    if g != [] && SameKey(wide, g[|g| - 1].header, f.header) {
      var last := g[|g| - 1];
      ValueCountGrows(g[..|g| - 1], Whole(last.header, last.values + f.values));
    } else {
      ValueCountGrows(g, Whole(f.header, f.values));
    }
  }

  lemma {:induction false} CountsAgree(wide: bool, fs: seq<Fragment>)
    ensures ValueCount(Glued(wide, fs)) == Count(fs)
  {
    if fs != [] {
      CountsAgree(wide, fs[..|fs| - 1]);
      GlueCounts(wide, Glued(wide, fs[..|fs| - 1]), fs[|fs| - 1]);
    }
  }

  datatype Wide = WideKey(space: int, run: int, sequence: int)

  function WideOf(h: Header): Wide {
    WideKey(h.space, h.run, h.sequence)
  }

  /** The keys of finished batches. */
  ghost predicate ClosedKeys(closed: set<Wide>, done: seq<Whole>) {
    closed == set w | w in done :: WideOf(w.header)
  }

  /** `finish_current`: close the current batch, unless that is refused. */
  method FinishCurrent(done: seq<Whole>, closed: set<Wide>, total: nat, current: Whole)
    returns (ok: bool, done': seq<Whole>, closed': set<Wide>, total': nat)
    requires ClosedKeys(closed, done) && total == ValueCount(done)
    ensures ok <==> |current.values| == current.header.total && |done| + 1 <= MAX_REPLAY_BATCHES
                    && total + |current.values| <= MAX_HISTORY_VALUES
    ensures ok ==> done' == done + [current] && ClosedKeys(closed', done') && total' == ValueCount(done')
  {
    done', closed', total' := done, closed, total;
    if |current.values| != current.header.total {
      return false, done', closed', total';
    }
    done' := done + [current];
    if |done'| > MAX_REPLAY_BATCHES {
      return false, done', closed', total';
    }
    closed' := closed + {WideOf(current.header)};
    total' := total + |current.values|;
    ok := total' <= MAX_HISTORY_VALUES;
    ValueCountGrows(done, current);
    assert forall w :: w in done' <==> w in done || w == current;
  }

  /** The variables of the gluing loop. */
  datatype Gluing = Gluing(done: seq<Whole>, closed: set<Wide>, total: nat, current: Option<Whole>)

  function Batches(s: Gluing): seq<Whole> {
    s.done + (if s.current.Some? then [s.current.value] else [])
  }

  function CurrentCount(s: Gluing): nat {
    if s.current.Some? then |s.current.value.values| else 0
  }

  ghost predicate Booked(s: Gluing) {
    && ClosedKeys(s.closed, s.done) && s.total == ValueCount(s.done) && AllComplete(s.done)
    && (s.current.None? ==> s.done == [])
  }

  /** Where the loop over the fragments stands. */
  ghost predicate Standing(fs: seq<Fragment>, p: nat, s: Gluing)
    requires p <= |fs|
  {
    && Started(true, fs[..p]) && Glued(true, fs[..p]) == Batches(s) && Booked(s)
    && (s.current.None? <==> p == 0)
    && (s.current.Some? ==> s.current.value.header == fs[p - 1].header && |s.current.value.values| == End(fs[p - 1]))
    && Count(fs[..p]) == s.total + CurrentCount(s)
  }

  /** What the checks on a fragment decide. */
  lemma ClosedDecides(done: seq<Whole>, closed: set<Wide>, current: Whole, f: Fragment)
    requires ClosedKeys(closed, done)
    ensures Accepts(true, done + [current], f) <==>
            && f.values != []
            && if WideOf(current.header) == WideOf(f.header) then current.header == f.header && f.start == |current.values|
               else f.start == 0 && WideOf(f.header) !in closed
  {
    var g := done + [current];
    assert g[|done|] == current && forall k :: 0 <= k < |done| ==> g[k] == done[k];
    if WideOf(f.header) in closed {
      var w :| w in done && WideOf(w.header) == WideOf(f.header);
      var k :| 0 <= k < |done| && done[k] == w;
      assert SameKey(true, g[k].header, f.header);
    } else {
      assert forall k :: 0 <= k < |done| ==> done[k] in done;
    }
  }

  predicate Switches(s: Gluing, f: Fragment) {
    s.current.None? || WideOf(s.current.value.header) != WideOf(f.header)
  }

  /** The batch that the next fragment closes cannot be closed. */
  predicate CannotClose(s: Gluing, f: Fragment) {
    && s.current.Some? && Switches(s, f)
    && (CurrentCount(s) != s.current.value.header.total || |Batches(s)| > MAX_REPLAY_BATCHES
        || s.total + CurrentCount(s) > MAX_HISTORY_VALUES)
  }

  /** The batch that a fragment goes to: the current one, or a new one once the
      current one is closed. */
  method StartBatch(s: Gluing, f: Fragment) returns (ok: bool, s': Gluing)
    requires Booked(s)
    ensures ok <==> !CannotClose(s, f) && (Switches(s, f) ==> WideOf(f.header) !in s'.closed && f.start == 0)
    ensures ok ==> Booked(s') && s'.current.Some? && s'.total + CurrentCount(s') == s.total + CurrentCount(s)
    ensures !CannotClose(s, f) && Switches(s, f) ==>
              ClosedKeys(s'.closed, Batches(s)) && s'.done == Batches(s) && s'.current == Some(Whole(f.header, []))
    ensures !Switches(s, f) ==> s' == s
  {
    if !Switches(s, f) {
      return true, s;
    }
    var done, closed, total := s.done, s.closed, s.total;
    if s.current.Some? {
      AllCompleteGrows(s.done, s.current.value);
      var kept;
      kept, done, closed, total := FinishCurrent(done, closed, total, s.current.value);
      if !kept {
        return false, s;
      }
    }
    s' := Gluing(done, closed, total, Some(Whole(f.header, [])));
    return WideOf(f.header) !in closed && f.start == 0, s';
  }

  /** A fragment that is not accepted, or that comes too early, refuses the window. */
  lemma RefusedHere(fs: seq<Fragment>, p: nat, s: Gluing, w: Wanted)
    requires p < |fs| && Standing(fs, p, s)
    ensures !Accepts(true, Batches(s), fs[p]) || CannotClose(s, fs[p]) ==> Window(true, fs, w, MAX_REPLAY_BATCHES) == None
  {
    hide Started, Accepts, Window, Booked;
    if !Accepts(true, Batches(s), fs[p]) || CannotClose(s, fs[p]) {
      PrefixRefuses(true, fs, p, w, MAX_REPLAY_BATCHES);
    }
  }

  /** What a fragment does to an accepting state. */
  function Added(s: Gluing, f: Fragment): Gluing
    requires s.current.Some?
  {
    s.(current := Some(Whole(s.current.value.header, s.current.value.values + f.values)))
  }

  lemma StandingNext(fs: seq<Fragment>, p: nat, s: Gluing, s1: Gluing)
    requires p < |fs| && Standing(fs, p, s) && Accepts(true, Batches(s), fs[p])
    requires Booked(s1) && s1.current.Some? && s1.total + CurrentCount(s1) == s.total + CurrentCount(s)
    requires if Switches(s, fs[p]) then s1.done == Batches(s) && s1.current == Some(Whole(fs[p].header, [])) else s1 == s
    ensures Standing(fs, p + 1, Added(s1, fs[p]))
  {
    hide *;
    StandingGives(fs, p, s);
    PrefixNext(fs, p);
    StandingAdds(fs[..p], fs[p], s, s1);
    StandingFrom(fs, p, Added(s1, fs[p]));
  }

  lemma PrefixNext(fs: seq<Fragment>, p: nat)
    requires p < |fs|
    ensures fs[..p + 1] == fs[..p] + [fs[p]]
  {
  }

  /** One more fragment behind the fragments `g` that an accepting state stands for. */
  lemma StandingAdds(g: seq<Fragment>, f: Fragment, s: Gluing, s1: Gluing)
    requires Started(true, g) && Glued(true, g) == Batches(s) && Count(g) == s.total + CurrentCount(s)
    requires Accepts(true, Batches(s), f) && (s.current.None? ==> s.done == [])
    requires Booked(s1) && s1.current.Some? && s1.total + CurrentCount(s1) == s.total + CurrentCount(s)
    requires if Switches(s, f) then s1.done == Batches(s) && s1.current == Some(Whole(f.header, [])) else s1 == s
    ensures var n := Added(s1, f);
            && Started(true, g + [f]) && Glued(true, g + [f]) == Batches(n) && Booked(n) && n.current.Some?
            && n.current.value.header == f.header && |n.current.value.values| == End(f)
            && Count(g + [f]) == n.total + CurrentCount(n)
  {
    hide *;
    StartedNext(true, g, f);
    CountNext(g, f);
    CurrentAccepts(s, f);
    BookedAdds(s1, f);
    BatchesGlue(s, s1, f);
  }

  lemma StandingGives(fs: seq<Fragment>, p: nat, s: Gluing)
    requires p <= |fs| && Standing(fs, p, s)
    ensures Started(true, fs[..p]) && Glued(true, fs[..p]) == Batches(s) && Booked(s)
    ensures Count(fs[..p]) == s.total + CurrentCount(s) && (s.current.None? ==> s.done == [])
  {
  }

  lemma StandingFrom(fs: seq<Fragment>, p: nat, s: Gluing)
    requires p < |fs| && Started(true, fs[..p + 1]) && Glued(true, fs[..p + 1]) == Batches(s) && Booked(s)
    requires s.current.Some? && s.current.value.header == fs[p].header && |s.current.value.values| == End(fs[p])
    requires Count(fs[..p + 1]) == s.total + CurrentCount(s)
    ensures Standing(fs, p + 1, s)
  {
  }

  lemma CountNext(fs: seq<Fragment>, f: Fragment)
    ensures Count(fs + [f]) == Count(fs) + |f.values|
  {
    assert (fs + [f])[..|fs|] == fs;
  }

  lemma BookedAdds(s: Gluing, f: Fragment)
    requires Booked(s) && s.current.Some?
    ensures Booked(Added(s, f)) && Added(s, f).total == s.total && Added(s, f).current.Some?
    ensures CurrentCount(Added(s, f)) == CurrentCount(s) + |f.values|
  {
  }

  lemma CurrentAccepts(s: Gluing, f: Fragment)
    requires Accepts(true, Batches(s), f) && (s.current.None? ==> s.done == [])
    ensures if Switches(s, f) then f.start == 0 else s.current.value.header == f.header && f.start == CurrentCount(s)
  {
    if s.current.Some? {
      assert Batches(s)[|Batches(s)| - 1] == s.current.value;
    }
  }

  lemma BatchesGlue(s: Gluing, s1: Gluing, f: Fragment)
    requires s1.current.Some? && (s.current.None? ==> s.done == [])
    requires if Switches(s, f) then f.start == 0 else s.current.value.header == f.header && f.start == CurrentCount(s)
    requires if Switches(s, f) then s1.done == Batches(s) && s1.current == Some(Whole(f.header, [])) else s1 == s
    ensures Batches(Added(s1, f)) == Glue(true, Batches(s), f)
    ensures Added(s1, f).current.value.header == f.header && |Added(s1, f).current.value.values| == End(f)
  {
    assert [] + f.values == f.values;
    var g := Batches(s);
    if s.current.Some? {
      assert g[|g| - 1] == s.current.value && g[..|g| - 1] == s.done;
      assert SameKey(true, s.current.value.header, f.header) <==> !Switches(s, f);
      if !Switches(s, f) {
        assert s.current.value.header == f.header;
        var more := Whole(f.header, s.current.value.values + f.values);
        assert Glue(true, g, f) == s.done + [more];
      } else {
        assert Glue(true, g, f) == g + [Whole(f.header, f.values)];
      }
    } else {
      assert g == [];
    }
  }

  /** The checks on a fragment are exactly acceptance. */
  lemma ChecksAccept(s: Gluing, f: Fragment, closed: set<Wide>)
    requires Booked(s) && (Switches(s, f) ==> ClosedKeys(closed, Batches(s)))
    ensures Accepts(true, Batches(s), f) <==>
            && f.values != []
            && if Switches(s, f) then WideOf(f.header) !in closed && f.start == 0
               else s.current.value.header == f.header && f.start == CurrentCount(s)
  {
    if s.current.Some? {
      ClosedDecides(s.done, s.closed, s.current.value, f);
      assert WideOf(f.header) in closed && Switches(s, f) ==> WideOf(f.header) in s.closed by {
        if WideOf(f.header) in closed && Switches(s, f) {
          var x :| x in Batches(s) && WideOf(x.header) == WideOf(f.header);
          assert x in s.done;
        }
      }
      assert WideOf(f.header) in s.closed && Switches(s, f) ==> WideOf(f.header) in closed by {
        if WideOf(f.header) in s.closed && Switches(s, f) {
          var x :| x in s.done && WideOf(x.header) == WideOf(f.header);
          assert x in Batches(s);
        }
      }
    }
  }

  lemma TooMuch(fs: seq<Fragment>, p: nat, s: Gluing, w: Wanted)
    requires p < |fs| && Standing(fs, p + 1, s)
    requires CurrentCount(s) > s.current.value.header.total || s.total + CurrentCount(s) > MAX_HISTORY_VALUES
    ensures Window(true, fs, w, MAX_REPLAY_BATCHES) == None
  {
    hide Started, Accepts, Window, Booked;
    PrefixRefuses(true, fs, p + 1, w, MAX_REPLAY_BATCHES);
  }

  /** One fragment of the loop: refused only when the whole window is. */
  method AddFragment(fs: seq<Fragment>, p: nat, s: Gluing, ghost w: Wanted) returns (ok: bool, s': Gluing)
    requires p < |fs| && Standing(fs, p, s)
    ensures ok ==> Standing(fs, p + 1, s') && s'.total + CurrentCount(s') <= MAX_HISTORY_VALUES
    ensures !ok ==> Window(true, fs, w, MAX_REPLAY_BATCHES) == None
  {
    var f := fs[p];
    hide Started, Glued, Glue, Window, Count, ValueCount, AllComplete, Accepts, Batches, ClosedKeys, SameKey;
    RefusedHere(fs, p, s, w);
    assert Booked(s);
    if f.values == [] {
      return false, s;
    }
    ok, s' := StartBatch(s, f);
    hide Standing, Booked;
    if CannotClose(s, f) {
      return false, s;
    }
    ChecksAccept(s, f, s'.closed);
    if !ok || s'.current.value.header != f.header || f.start != |s'.current.value.values| {
      return false, s;
    }
    StandingNext(fs, p, s, s');
    s' := Added(s', f);
    ok := |s'.current.value.values| <= s'.current.value.header.total
          && s'.total + |s'.current.value.values| <= MAX_HISTORY_VALUES;
    if !ok {
      TooMuch(fs, p, s', w);
    }
  }

  /** The consumer of physical history: exactly the coherent windows are accepted, and
      they yield their batches. */
  method GluePhysical(fs: seq<Fragment>, w: Wanted) returns (r: Option<seq<Whole>>)
    ensures r == Window(true, fs, w, MAX_REPLAY_BATCHES)
  {
    if fs == [] {
      return None;
    }
    var s := Gluing([], {}, 0, None);
    var p := 0;
    assert Standing(fs, 0, s);
    hide Standing, Window;
    while p < |fs|
      invariant 0 <= p <= |fs| && Standing(fs, p, s)
    {
      var ok;
      ok, s := AddFragment(fs, p, s, w);
      if !ok {
        return None;
      }
      p := p + 1;
    }
    r := FinishWindow(fs, s, w);
  }

  /** The end of the window: close the last batch and compare the sequence. */
  method FinishWindow(fs: seq<Fragment>, s: Gluing, w: Wanted) returns (r: Option<seq<Whole>>)
    requires fs != [] && Standing(fs, |fs|, s)
    ensures r == Window(true, fs, w, MAX_REPLAY_BATCHES)
  {
    assert fs[..|fs|] == fs;
    CompleteMeans(true, fs);
    AllCompleteGrows(s.done, s.current.value);
    hide Started, Glued, Count, AllComplete, Complete;
    var ok, done, closed, total := FinishCurrent(s.done, s.closed, s.total, s.current.value);
    if !ok {
      return None;
    }
    assert done == Glued(true, fs);
    if Named(done) != Expected(w.run, w.from, w.to) {
      return None;
    }
    return Some(done);
  }
}
