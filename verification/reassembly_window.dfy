/** The second consumer, with a table of states, and its agreement with the first. */
module ReassemblyWindow {
  import opened Basics
  import opened HistoryPages
  import opened Reassembly

  datatype Entry = Entry(header: Header, values: seq<Value>, count: nat)

  /** The variables of the paging loop. */
  datatype Tracking = Tracking(order: seq<(int, int)>, states: map<(int, int), Entry>, closed: set<(int, int)>,
                               previous: Option<(int, int)>, total: nat)

  const START := Tracking([], map[], {}, None, 0)

  function EntryOf(w: Whole): Entry {
    Entry(w.header, w.values, |w.values|)
  }

  predicate Distinct(order: seq<(int, int)>) {
    forall j, k :: 0 <= j < k < |order| ==> order[j] != order[k]
  }

  /** The state table lists the glued batches. */
  ghost predicate Lists(g: seq<Whole>, order: seq<(int, int)>, states: map<(int, int), Entry>) {
    && order == Named(g) && Distinct(order)
    && (forall x :: x in states <==> x in order)
    && (forall k :: 0 <= k < |g| ==> order[k] in states && states[order[k]] == EntryOf(g[k]))
  }

  ghost predicate Tracks(g: seq<Whole>, t: Tracking) {
    && Lists(g, t.order, t.states)
    && (forall x :: x in t.closed <==> g != [] && x in t.order[..|g| - 1])
    && t.previous == (if g == [] then None else Some(t.order[|g| - 1]))
    && t.total == ValueCount(g)
  }

  /** A key is closed once another one follows it. */
  lemma ClosedKey(g: seq<Whole>, t: Tracking, f: Fragment, closed: set<(int, int)>)
    requires Tracks(g, t)
    requires closed == if t.previous.Some? && t.previous.value != Key(f.header) then t.closed + {t.previous.value} else t.closed
    ensures Key(f.header) in closed <==> Key(f.header) in t.order && t.previous != Some(Key(f.header))
    ensures t.previous == Some(Key(f.header)) ==> closed == t.closed
    ensures t.previous != Some(Key(f.header)) ==> forall x :: x in closed <==> x in t.order
  {
    assert |t.order| == |g|;
    hide Lists;
    if g != [] {
      LastIsNew(g, t);
      assert t.order == t.order[..|g| - 1] + [t.order[|g| - 1]];
    }
  }

  lemma LastIsNew(g: seq<Whole>, t: Tracking)
    requires Lists(g, t.order, t.states) && g != []
    ensures |t.order| == |g| && t.order[|g| - 1] !in t.order[..|g| - 1]
  {
  }

  /** A key that no glued batch has. */
  lemma UnknownKey(g: seq<Whole>, order: seq<(int, int)>, h: Header)
    requires order == Named(g)
    ensures Key(h) in order <==> exists k :: 0 <= k < |g| && SameKey(false, g[k].header, h)
  {
    if Key(h) in order {
      var k :| 0 <= k < |order| && order[k] == Key(h);
      assert SameKey(false, g[k].header, h);
    }
    if k :| 0 <= k < |g| && SameKey(false, g[k].header, h) {
      assert order[k] == Key(h);
    }
  }

  lemma LastKey(g: seq<Whole>, t: Tracking, h: Header)
    requires Tracks(g, t)
    ensures t.previous == Some(Key(h)) <==> g != [] && SameKey(false, g[|g| - 1].header, h)
    ensures t.previous == Some(Key(h)) ==> Key(h) in t.states && t.states[Key(h)] == EntryOf(g[|g| - 1])
  {
  }

  lemma ListsNew(g: seq<Whole>, order: seq<(int, int)>, states: map<(int, int), Entry>, w: Whole)
    requires Lists(g, order, states) && Key(w.header) !in order
    ensures Lists(g + [w], order + [Key(w.header)], states[Key(w.header) := EntryOf(w)])
  {
    var h, o, s := g + [w], order + [Key(w.header)], states[Key(w.header) := EntryOf(w)];
    assert forall k :: 0 <= k < |g| ==> order[k] in order && h[k] == g[k] && o[k] == order[k];
    assert o == Named(h);
  }

  lemma ListsMore(g: seq<Whole>, order: seq<(int, int)>, states: map<(int, int), Entry>, w: Whole)
    requires Lists(g, order, states) && g != [] && Key(w.header) == order[|g| - 1]
    ensures Lists(g[..|g| - 1] + [w], order, states[Key(w.header) := EntryOf(w)])
  {
    var h := g[..|g| - 1] + [w];
    assert forall k :: 0 <= k < |g| - 1 ==> h[k] == g[k] && order[k] != order[|g| - 1];
    assert order == Named(h);
  }

  /** The checks of the loop are acceptance. */
  lemma AcceptsHere(g: seq<Whole>, t: Tracking, f: Fragment)
    requires Tracks(g, t)
    ensures Accepts(false, g, f) <==>
            && f.values != []
            && if t.previous == Some(Key(f.header)) then
                 Key(f.header) in t.states && t.states[Key(f.header)].header == f.header && t.states[Key(f.header)].count == f.start
               else Key(f.header) !in t.order && f.start == 0
  {
    UnknownKey(g, t.order, f.header);
    LastKey(g, t, f.header);
    hide Lists, Named, SameKey, ValueCount;
  }

  lemma TracksNew(g: seq<Whole>, t: Tracking, f: Fragment, closed: set<(int, int)>)
    requires Tracks(g, t) && Key(f.header) !in t.order && forall x :: x in closed <==> x in t.order
    ensures var w := Whole(f.header, f.values);
            Tracks(Glue(false, g, f), Tracking(t.order + [Key(f.header)], t.states[Key(f.header) := EntryOf(w)], closed,
                                     Some(Key(f.header)), t.total + |f.values|))
  {
    var w := Whole(f.header, f.values);
    assert Glue(false, g, f) == g + [w] by {
      UnknownKey(g, t.order, f.header);
    }
    ListsNew(g, t.order, t.states, w);
    ValueCountGrows(g, w);
    assert (t.order + [Key(f.header)])[..|g|] == t.order;
    hide Lists, Named, ValueCount;
  }

  lemma TracksMore(g: seq<Whole>, t: Tracking, f: Fragment)
    requires Tracks(g, t) && g != [] && g[|g| - 1].header == f.header
    ensures var w := Whole(f.header, g[|g| - 1].values + f.values);
            Tracks(Glue(false, g, f), t.(states := t.states[Key(f.header) := EntryOf(w)], total := t.total + |f.values|))
  {
    var w := Whole(f.header, g[|g| - 1].values + f.values);
    assert |t.order| == |g| && t.order[|g| - 1] == Key(f.header);
    assert Glue(false, g, f) == g[..|g| - 1] + [w];
    hide Glue, Named;
    ListsMore(g, t.order, t.states, w);
    GlueCounts(false, g, f);
    TracksAgain(g, t, g[..|g| - 1] + [w], t.states[Key(f.header) := EntryOf(w)], |f.values|);
  }

  lemma TracksAgain(g: seq<Whole>, t: Tracking, h: seq<Whole>, states: map<(int, int), Entry>, more: nat)
    requires Tracks(g, t) && |g| == |h| && Lists(h, t.order, states) && ValueCount(h) == ValueCount(g) + more
    ensures Tracks(h, t.(states := states, total := t.total + more))
  {
    hide Lists, ValueCount;
  }

  /** One slice of a page: accepted exactly as in the specification. */
  method TakeItem(t: Tracking, f: Fragment, ghost g: seq<Whole>) returns (ok: bool, t': Tracking)
    requires Tracks(g, t)
    ensures ok <==> Accepts(false, g, f) && t.total + |f.values| <= MAX_HISTORY_VALUES
    ensures ok ==> Tracks(Glue(false, g, f), t') && t'.total <= MAX_HISTORY_VALUES
  {
    var key := Key(f.header);
    var closed := t.closed;
    if t.previous.Some? && t.previous.value != key {
      closed := closed + {t.previous.value};
    }
    ClosedKey(g, t, f, closed);
    AcceptsHere(g, t, f);
    LastKey(g, t, f.header);
    assert key in t.states <==> key in t.order;
    hide Lists, Named, ValueCount, SameKey, Tracks, Accepts, Glue;
    if f.values == [] || key in closed {
      return false, t;
    }
    if key !in t.states {
      if f.start != 0 {
        return false, t;
      }
      TracksNew(g, t, f, closed);
      var entry := Entry(f.header, f.values, |f.values|);
      t' := Tracking(t.order + [key], t.states[key := entry], closed, Some(key), t.total + |f.values|);
    } else {
      var e := t.states[key];
      if e.header != f.header || f.start != e.count {
        return false, t;
      }
      TracksMore(g, t, f);
      var entry := Entry(e.header, e.values + f.values, e.count + |f.values|);
      t' := Tracking(t.order, t.states[key := entry], closed, Some(key), t.total + |f.values|);
    }
    ok := t'.total <= MAX_HISTORY_VALUES;
  }

  lemma TracksCount(fs: seq<Fragment>, p: nat, t: Tracking)
    requires p <= |fs| && Tracks(Glued(false, fs[..p]), t)
    ensures t.total == Count(fs[..p])
  {
    CountsAgree(false, fs[..p]);
  }

  lemma CountGrows(fs: seq<Fragment>, p: nat)
    requires p < |fs|
    ensures Count(fs[..p + 1]) == Count(fs[..p]) + |fs[p].values|
  {
    assert fs[..p + 1][..p] == fs[..p];
  }

  /** A slice that is not taken refuses the window. */
  lemma ItemRefused(fs: seq<Fragment>, p: nat, t: Tracking, w: Wanted, atMost: nat)
    requires p < |fs| && Started(false, fs[..p]) && Tracks(Glued(false, fs[..p]), t)
    requires !(Accepts(false, Glued(false, fs[..p]), fs[p]) && t.total + |fs[p].values| <= MAX_HISTORY_VALUES)
    ensures Window(false, fs, w, atMost) == None
  {
    hide *;
    TracksCount(fs, p, t);
    CountGrows(fs, p);
    assert fs[..p + 1] == fs[..p] + [fs[p]];
    StartedNext(false, fs[..p], fs[p]);
    if Accepts(false, Glued(false, fs[..p]), fs[p]) {
      PrefixRefuses(false, fs, p + 1, w, atMost);
    } else {
      PrefixRefuses(false, fs, p, w, atMost);
    }
  }

  lemma NothingTracked(fs: seq<Fragment>)
    ensures Started(false, fs[..0]) && Tracks(Glued(false, fs[..0]), START) && START.total == 0
  {
  }

  /** The consumer of an analysis window: exactly the coherent windows are accepted,
      and they yield their batches. */
  method GlueWindow(fs: seq<Fragment>, w: Wanted) returns (r: Option<seq<Whole>>)
    requires w.from < w.to
    ensures r == Window(false, fs, w, w.to - w.from)
  {
    var t, p := START, 0;
    NothingTracked(fs);
    hide *;
    while p < |fs|
      invariant 0 <= p <= |fs| && Started(false, fs[..p]) && Tracks(Glued(false, fs[..p]), t)
      invariant t.total <= MAX_HISTORY_VALUES
    {
      ghost var g := Glued(false, fs[..p]);
      assert fs[..p + 1] == fs[..p] + [fs[p]];
      StartedNext(false, fs[..p], fs[p]);
      var ok, next := TakeItem(t, fs[p], g);
      if !ok {
        ItemRefused(fs, p, t, w, w.to - w.from);
        return None;
      }
      t, p := next, p + 1;
    }
    assert fs[..p] == fs;
    TracksCount(fs, p, t);
    r := CollectWindow(fs, t, w);
  }

  lemma CompleteDecides(fs: seq<Fragment>, w: Wanted)
    requires w.from < w.to && Started(false, fs) && Count(fs) <= MAX_HISTORY_VALUES
    ensures var g := Glued(false, fs);
            Window(false, fs, w, w.to - w.from) ==
            if Named(g) == Expected(w.run, w.from, w.to) && AllComplete(g) then Some(g) else None
  {
    CompleteMeans(false, fs);
    assert |Expected(w.run, w.from, w.to)| == w.to - w.from;
    hide Started, Count, Complete;
  }

  lemma Incomplete(g: seq<Whole>, k: nat)
    requires k < |g| && |g[k].values| != g[k].header.total
    ensures !AllComplete(g)
  {
  }

  lemma EntryAt(g: seq<Whole>, t: Tracking, k: nat)
    requires Tracks(g, t) && k < |g|
    ensures t.order[k] in t.states && t.states[t.order[k]] == EntryOf(g[k])
  {
  }

  /** The end of the window: the keys in order, and every batch complete. */
  method CollectWindow(fs: seq<Fragment>, t: Tracking, w: Wanted) returns (r: Option<seq<Whole>>)
    requires w.from < w.to && Started(false, fs) && Tracks(Glued(false, fs), t) && Count(fs) <= MAX_HISTORY_VALUES
    ensures r == Window(false, fs, w, w.to - w.from)
  {
    ghost var g := Glued(false, fs);
    CompleteDecides(fs, w);
    assert AllComplete(g[..0]);
    assert t.order == Named(g);
    hide Started, Glued, Count, Tracks, Named, Expected, Window, AllComplete;
    if t.order != Expected(w.run, w.from, w.to) {
      return None;
    }
    var result, k := [], 0;
    while k < |t.order|
      invariant 0 <= k <= |t.order| && result == g[..k]
      invariant AllComplete(g[..k])
    {
      assert g[..k + 1] == g[..k] + [g[k]];
      AllCompleteGrows(g[..k], g[k]);
      EntryAt(g, t, k);
      var e := t.states[t.order[k]];
      if e.count != e.header.total {
        Incomplete(g, k);
        return None;
      }
      result := result + [Whole(e.header, e.values)];
      k := k + 1;
    }
    assert g[..k] == g;
    return Some(result);
  }

  // Agreement

  predicate KeysCoincide(headers: set<Header>) {
    forall a, b :: a in headers && b in headers ==> SameKey(true, a, b) == SameKey(false, a, b)
  }

  lemma {:induction false} GluedHeaders(wide: bool, fs: seq<Fragment>)
    ensures forall w :: w in Glued(wide, fs) ==> w.header in FragmentHeaders(fs)
  {
    if fs != [] {
      var n := |fs| - 1;
      GluedHeaders(wide, fs[..n]);
      assert fs == fs[..n] + [fs[n]];
      FragmentHeadersGrow(fs[..n], fs[n]);
      var g, f := Glued(wide, fs[..n]), fs[n];
      forall w | w in Glue(wide, g, f)
        ensures w.header in FragmentHeaders(fs)
      {
        if g != [] && w.header == g[|g| - 1].header {
          assert g[|g| - 1] in g;
        }
      }
    }
  }

  /** Where the wide and the narrow key tell the same batches apart, gluing and the
      demands on a window are the same. */
  lemma {:induction false} SameGlued(fs: seq<Fragment>)
    requires KeysCoincide(FragmentHeaders(fs))
    ensures Glued(true, fs) == Glued(false, fs)
  {
    if fs != [] {
      var n := |fs| - 1;
      assert fs == fs[..n] + [fs[n]];
      FragmentHeadersGrow(fs[..n], fs[n]);
      SameGlued(fs[..n]);
      GluedHeaders(true, fs[..n]);
      var g := Glued(true, fs[..n]);
      if g != [] {
        assert g[|g| - 1] in g;
        assert fs[n].header in FragmentHeaders(fs);
      }
      hide FragmentHeaders, SameKey;
    }
  }

  predicate PairsCoincide(fs: seq<Fragment>) {
    forall i, j :: 0 <= i < |fs| && 0 <= j < |fs| ==>
      SameKey(true, fs[i].header, fs[j].header) == SameKey(false, fs[i].header, fs[j].header)
  }

  lemma SameContiguous(fs: seq<Fragment>)
    requires PairsCoincide(fs)
    ensures Contiguous(true, fs) == Contiguous(false, fs)
  {
    hide SameKey;
    if Contiguous(true, fs) {
      forall i, j, k | 0 <= i < j < k < |fs| && SameKey(false, fs[i].header, fs[k].header)
        ensures SameKey(false, fs[i].header, fs[j].header)
      {
        assert SameKey(true, fs[i].header, fs[k].header);
        assert SameKey(true, fs[i].header, fs[j].header);
      }
    }
    if Contiguous(false, fs) {
      forall i, j, k | 0 <= i < j < k < |fs| && SameKey(true, fs[i].header, fs[k].header)
        ensures SameKey(true, fs[i].header, fs[j].header)
      {
        assert SameKey(false, fs[i].header, fs[k].header);
        assert SameKey(false, fs[i].header, fs[j].header);
      }
    }
  }

  lemma SameUnchanged(fs: seq<Fragment>)
    requires PairsCoincide(fs)
    ensures Unchanged(true, fs) == Unchanged(false, fs)
  {
    hide SameKey;
  }

  lemma SameSeams(fs: seq<Fragment>)
    requires PairsCoincide(fs)
    ensures Seamless(true, fs) == Seamless(false, fs) && Complete(true, fs) == Complete(false, fs)
  {
    hide SameKey;
    assert forall i :: 0 <= i < |fs| ==> Continues(true, fs, i) == Continues(false, fs, i);
    hide Continues;
    assert forall i :: 0 <= i < |fs| ==> SeamlessAt(true, fs, i) == SeamlessAt(false, fs, i);
    assert forall i :: 0 <= i < |fs| ==> CompleteAt(true, fs, i) == CompleteAt(false, fs, i);
  }

  lemma AllPairsCoincide(fs: seq<Fragment>)
    requires KeysCoincide(FragmentHeaders(fs))
    ensures PairsCoincide(fs)
  {
    hide SameKey;
    assert forall i :: 0 <= i < |fs| ==> fs[i].header in FragmentHeaders(fs);
  }

  lemma SameCoherence(fs: seq<Fragment>)
    requires KeysCoincide(FragmentHeaders(fs))
    ensures Coherent(true, fs) == Coherent(false, fs)
  {
    hide PairsCoincide, KeysCoincide, FragmentHeaders, Contiguous, Unchanged, Seamless, Complete, NoneEmpty;
    AllPairsCoincide(fs);
    SameContiguous(fs);
    SameUnchanged(fs);
    SameSeams(fs);
  }

  /** A window that either consumer accepts has coinciding keys: the narrow one because
      a key's metadata never changes, the wide one because sequences never repeat. */
  lemma AcceptedKeysCoincide(wide: bool, fs: seq<Fragment>, w: Wanted, atMost: nat)
    requires Window(wide, fs, w, atMost).Some?
    ensures KeysCoincide(FragmentHeaders(fs))
  {
    GluedMirrors(wide, fs);
    var g := Glued(wide, fs);
    forall a, b | a in FragmentHeaders(fs) && b in FragmentHeaders(fs)
      ensures SameKey(true, a, b) == SameKey(false, a, b)
    {
      assert a in WholeHeaders(g) && b in WholeHeaders(g);
      var x :| x in g && x.header == a;
      var y :| y in g && y.header == b;
      var i :| 0 <= i < |g| && g[i] == x;
      var j :| 0 <= j < |g| && g[j] == y;
      assert Named(g)[i] == Expected(w.run, w.from, w.to)[i] && Named(g)[j] == Expected(w.run, w.from, w.to)[j];
    }
  }

  /** Both consumers accept the same fragments and return the same batches. */
  lemma ConsumersAgree(fs: seq<Fragment>, w: Wanted)
    requires 0 < w.to - w.from <= MAX_REPLAY_BATCHES
    ensures Window(true, fs, w, MAX_REPLAY_BATCHES) == Window(false, fs, w, w.to - w.from)
  {
    if Window(true, fs, w, MAX_REPLAY_BATCHES).Some? {
      AcceptedKeysCoincide(true, fs, w, MAX_REPLAY_BATCHES);
    }
    if Window(false, fs, w, w.to - w.from).Some? {
      AcceptedKeysCoincide(false, fs, w, w.to - w.from);
    }
    hide Coherent, Glued, KeysCoincide, FragmentHeaders;
    if KeysCoincide(FragmentHeaders(fs)) {
      SameGlued(fs);
      SameCoherence(fs);
    }
  }
}
