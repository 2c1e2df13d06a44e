/** What an accepted window of fragments is: a cut of the batches it is glued to. */
module GlueExact {
  import opened Basics
  import opened HistoryPages
  import opened Reassembly

  /** One value at its position in a batch. */
  datatype Place = Place(header: Header, ordinal: nat, value: Value)

  function PlacesFrom(h: Header, start: nat, values: seq<Value>): (r: seq<Place>)
    ensures |r| == |values|
    ensures forall k :: 0 <= k < |values| ==> r[k] == Place(h, start + k, values[k])
  {
    seq(|values|, k requires 0 <= k < |values| => Place(h, start + k, values[k]))
  }

  /** What the fragments hold, in the order they came. */
  function FragmentPlaces(fs: seq<Fragment>): seq<Place> {
    if fs == [] then []
    else FragmentPlaces(fs[..|fs| - 1]) + (var f := fs[|fs| - 1]; PlacesFrom(f.header, f.start, f.values))
  }

  /** What the batches hold, each from its first value to its last. */
  function BatchPlaces(g: seq<Whole>): seq<Place> {
    if g == [] then []
    else BatchPlaces(g[..|g| - 1]) + PlacesFrom(g[|g| - 1].header, 0, g[|g| - 1].values)
  }

  predicate KeysDiffer(wide: bool, a: Header, b: Header) {
    (wide && a.space != b.space) || a.run != b.run || a.sequence != b.sequence
  }

  ghost predicate DistinctKeys(wide: bool, g: seq<Whole>) {
    forall j, k :: 0 <= j < k < |g| ==> KeysDiffer(wide, g[j].header, g[k].header)
  }

  ghost predicate NoBatchEmpty(g: seq<Whole>) {
    forall k :: 0 <= k < |g| ==> g[k].values != []
  }

  lemma LastBatch(g: seq<Whole>, w: Whole)
    ensures BatchPlaces(g + [w]) == BatchPlaces(g) + PlacesFrom(w.header, 0, w.values)
  {
    assert (g + [w])[..|g|] == g;
  }

  lemma MoreValues(h: Header, a: seq<Value>, b: seq<Value>)
    ensures PlacesFrom(h, 0, a + b) == PlacesFrom(h, 0, a) + PlacesFrom(h, |a|, b)
  {
  }

  predicate GoesOn(wide: bool, g: seq<Whole>, f: Fragment) {
    g != [] && SameKey(wide, g[|g| - 1].header, f.header)
  }

  lemma GluePlaces(wide: bool, g: seq<Whole>, f: Fragment)
    requires Accepts(wide, g, f)
    ensures BatchPlaces(Glue(wide, g, f)) == BatchPlaces(g) + PlacesFrom(f.header, f.start, f.values)
  {
    hide BatchPlaces, PlacesFrom, SameKey;
    if GoesOn(wide, g, f) {
      var before, last := g[..|g| - 1], g[|g| - 1];
      assert g == before + [last];
      LastBatch(before, last);
      LastBatch(before, Whole(last.header, last.values + f.values));
      MoreValues(last.header, last.values, f.values);
      JoinPlaces(BatchPlaces(before), PlacesFrom(last.header, 0, last.values), PlacesFrom(last.header, |last.values|, f.values));
    } else {
      LastBatch(g, Whole(f.header, f.values));
    }
  }

  lemma JoinPlaces(a: seq<Place>, b: seq<Place>, c: seq<Place>)
    ensures a + (b + c) == a + b + c
  {
  }

  lemma GlueKeys(wide: bool, g: seq<Whole>, f: Fragment)
    requires Accepts(wide, g, f) && DistinctKeys(wide, g) && NoBatchEmpty(g)
    ensures DistinctKeys(wide, Glue(wide, g, f)) && NoBatchEmpty(Glue(wide, g, f))
  {
    var h, n := Glue(wide, g, f), |g|;
    if GoesOn(wide, g, f) {
      assert forall k :: 0 <= k < n ==> h[k].header == g[k].header;
      hide KeysDiffer, SameKey;
    } else {
      assert forall k :: 0 <= k < n ==> h[k] == g[k];
      forall k | 0 <= k < n
        ensures KeysDiffer(wide, h[k].header, h[n].header)
      {
        assert !SameKey(wide, g[k].header, f.header);
      }
      hide KeysDiffer, SameKey;
    }
  }

  lemma {:induction false} StartedIsCut(wide: bool, fs: seq<Fragment>)
    requires Started(wide, fs)
    ensures FragmentPlaces(fs) == BatchPlaces(Glued(wide, fs))
    ensures DistinctKeys(wide, Glued(wide, fs)) && NoBatchEmpty(Glued(wide, fs))
    decreases |fs|
  {
    if fs != [] {
      var before, f := fs[..|fs| - 1], fs[|fs| - 1];
      assert fs == before + [f];
      StartedPrefix(wide, fs, |before|);
      hide Started, Accepts, DistinctKeys, NoBatchEmpty, Glue, Mirrors;
      StartedNext(wide, before, f);
      StartedIsCut(wide, before);
      GluePlaces(wide, Glued(wide, before), f);
      GlueKeys(wide, Glued(wide, before), f);
    }
  }

  /** The batches of an accepted window differ in their keys, are as long as their
      headers say, and hold value for value, each once and in order, what the fragments
      hold; no fragment is empty. */
  lemma AcceptedIsCut(wide: bool, fs: seq<Fragment>, w: Wanted, atMost: nat, g: seq<Whole>)
    requires Window(wide, fs, w, atMost) == Some(g)
    ensures FragmentPlaces(fs) == BatchPlaces(g) && (forall f :: f in fs ==> f.values != [])
    ensures DistinctKeys(wide, g) && forall k :: 0 <= k < |g| ==> 0 < |g[k].values| == g[k].header.total
    ensures 0 < |g| <= atMost && |FragmentPlaces(fs)| <= 10_000
    ensures |g| == w.to - w.from && forall k :: 0 <= k < |g| ==> g[k].header.run == w.run && g[k].header.sequence == w.from + k
  {
    StartedIsCut(wide, fs);
    CompleteMeans(wide, fs);
    PlacesCounted(fs);
    NamedExactly(g, w);
    NothingEmpty(wide, fs);
    assert AllComplete(g);
    hide Coherent, Glued, Named, Expected, Count, FragmentPlaces, BatchPlaces, DistinctKeys;
  }

  lemma NothingEmpty(wide: bool, fs: seq<Fragment>)
    requires Coherent(wide, fs) && fs != []
    ensures (forall f :: f in fs ==> f.values != []) && Glued(wide, fs) != []
  {
  }

  lemma NamedExactly(g: seq<Whole>, w: Wanted)
    requires Named(g) == Expected(w.run, w.from, w.to) && g != []
    ensures |g| == w.to - w.from && forall k :: 0 <= k < |g| ==> g[k].header.run == w.run && g[k].header.sequence == w.from + k
  {
    forall k | 0 <= k < |g|
      ensures g[k].header.run == w.run && g[k].header.sequence == w.from + k
    {
      assert Named(g)[k] == Expected(w.run, w.from, w.to)[k];
    }
  }

  lemma {:induction false} PlacesCounted(fs: seq<Fragment>)
    ensures |FragmentPlaces(fs)| == Count(fs)
  {
    if fs != [] {
      PlacesCounted(fs[..|fs| - 1]);
    }
  }
}
