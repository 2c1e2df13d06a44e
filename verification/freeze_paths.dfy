/** Freezing, by the paths of a value: what is accepted, what is counted and what the
    frozen value holds at every path. */
module FreezePaths {
  import opened Basics
  import opened JsonFreeze

  type Path = seq<nat>

  /** The value at a path of positions, if there is one. */
  function At(v: Json, p: Path): Option<Json>
    decreases |p|
  {
    if p == [] then Some(v)
    else if p[0] >= Arity(v) then None
    else At(Child(v, p[0]), p[1..])
  }

  /** What is demanded of one part of a value: a signed 64-bit integer, a finite number,
      no other type, and keys that are strings and stay distinct in normal form. */
  predicate PartOk(u: Normal, v: Json) {
    match v
    case Int(n) => -9_223_372_036_854_775_808 <= n <= 9_223_372_036_854_775_807
    case Float(finite, _) => finite
    case Other => false
    case Dict(_, es) =>
      && (forall i :: 0 <= i < |es| ==> es[i].key.Some?)
      && forall i, j :: 0 <= i < j < |es| && es[i].key.Some? && es[j].key.Some? ==>
           u.nfc(es[i].key.value) != u.nfc(es[j].key.value)
    case _ => true
  }

  lemma PartIs(u: Normal, v: Json)
    requires Lawful(u)
    ensures PartOk(u, v) <==> ScalarOk(v) && KeysOk(u, v)
  {
    if v.Dict? {
      forall i | 0 <= i < |v.entries| && v.entries[i].key.Some?
        ensures Key(u, v.entries[i].key.value) == u.nfc(v.entries[i].key.value)
      {
        KeyIsNormalized(u, v.entries[i].key.value);
      }
      hide Lawful, Key;
      if KeysOk(u, v) {
        forall i | 0 <= i < |v.entries|
          ensures v.entries[i].key.Some?
        {
          assert KeyOk(u, v.entries, i);
        }
        forall i, j | 0 <= i < j < |v.entries| && v.entries[i].key.Some? && v.entries[j].key.Some?
          ensures u.nfc(v.entries[i].key.value) != u.nfc(v.entries[j].key.value)
        {
          assert KeyOk(u, v.entries, j);
        }
      }
    }
  }

  lemma DeeperPath(v: Json, i: nat, p: Path)
    requires i < Arity(v)
    ensures At(v, [i] + p) == At(Child(v, i), p)
  {
    assert ([i] + p)[1..] == p;
  }

  ghost predicate AllParts(u: Normal, v: Json, depth: nat) {
    forall p: Path :: At(v, p).Some? ==> depth + |p| <= 32 && PartOk(u, At(v, p).value)
  }

  lemma SoundHere(u: Normal, v: Json, depth: nat)
    requires Lawful(u)
    ensures Sound(u, v, depth) <==>
              depth <= 32 && PartOk(u, v) && forall i :: 0 <= i < Arity(v) ==> Sound(u, Child(v, i), depth + 1)
  {
    PartIs(u, v);
    hide Lawful, PartOk, ScalarOk, KeysOk;
  }

  lemma AllPartsHere(u: Normal, v: Json, depth: nat)
    ensures AllParts(u, v, depth) <==>
              depth <= 32 && PartOk(u, v) && forall i :: 0 <= i < Arity(v) ==> AllParts(u, Child(v, i), depth + 1)
  {
    hide PartOk;
    if AllParts(u, v, depth) {
      assert At(v, []).Some?;
      forall i, p: Path | 0 <= i < Arity(v) && At(Child(v, i), p).Some?
        ensures depth + 1 + |p| <= 32 && PartOk(u, At(Child(v, i), p).value)
      {
        DeeperPath(v, i, p);
        assert |[i] + p| == 1 + |p|;
      }
    }
    if depth <= 32 && PartOk(u, v) && forall i :: 0 <= i < Arity(v) ==> AllParts(u, Child(v, i), depth + 1) {
      forall p: Path | At(v, p).Some?
        ensures depth + |p| <= 32 && PartOk(u, At(v, p).value)
      {
        if p != [] {
          assert AllParts(u, Child(v, p[0]), depth + 1);
          assert At(Child(v, p[0]), p[1..]).Some?;
        }
      }
    }
  }

  /** A value is sound exactly if every part is, at a depth of at most 32. */
  lemma {:induction false} SoundExactly(u: Normal, v: Json, depth: nat)
    requires Lawful(u)
    ensures Sound(u, v, depth) <==> AllParts(u, v, depth)
    decreases v
  {
    hide Lawful, Sound, AllParts, PartOk;
    SoundHere(u, v, depth);
    AllPartsHere(u, v, depth);
    forall i | 0 <= i < Arity(v)
      ensures Sound(u, Child(v, i), depth + 1) <==> AllParts(u, Child(v, i), depth + 1)
    {
      SoundExactly(u, Child(v, i), depth + 1);
    }
  }

  // The frozen value

  /** One part in frozen form: a scalar is itself, a list a tuple, an object read-only
      with its keys in normal form. */
  predicate FreezesTo(u: Normal, v: Json, f: Json) {
    match v
    case List(_, items) => f.List? && f.tuple && |f.items| == |items|
    case Dict(_, es) =>
      && f.Dict? && f.proxy && |f.entries| == |es|
      && forall i :: 0 <= i < |es| ==>
           f.entries[i].key == if es[i].key.Some? then Some(u.nfc(es[i].key.value)) else None
    case _ => f == v
  }

  lemma CanonHere(u: Normal, v: Json)
    requires Lawful(u)
    ensures FreezesTo(u, v, Canon(u, v)) && Arity(Canon(u, v)) == Arity(v)
    ensures forall i :: 0 <= i < Arity(v) ==> Child(Canon(u, v), i) == Canon(u, Child(v, i))
  {
    var f := Canon(u, v);
    if v.Dict? {
      forall i | 0 <= i < |v.entries|
        ensures f.entries[i] == FrozenEntry(u, v, i)
        ensures f.entries[i].key == if v.entries[i].key.Some? then Some(u.nfc(v.entries[i].key.value)) else None
        ensures Child(f, i) == Canon(u, Child(v, i))
      {
        if v.entries[i].key.Some? {
          KeyIsNormalized(u, v.entries[i].key.value);
        }
      }
    }
  }

  /** The frozen value has the same paths, and each part in frozen form. */
  lemma {:induction false} FrozenAt(u: Normal, v: Json, p: Path)
    requires Lawful(u)
    ensures At(Canon(u, v), p).Some? <==> At(v, p).Some?
    ensures At(v, p).Some? ==> FreezesTo(u, At(v, p).value, At(Canon(u, v), p).value)
    decreases |p|
  {
    CanonHere(u, v);
    hide Lawful, Canon;
    if p != [] && p[0] < Arity(v) {
      FrozenAt(u, Child(v, p[0]), p[1..]);
    }
  }

  /** One part thawed: a tuple is a list, a read-only object plain, with its keys. */
  predicate ThawsTo(f: Json, t: Json) {
    match f
    case List(_, items) => t.List? && !t.tuple && |t.items| == |items|
    case Dict(_, es) =>
      && t.Dict? && !t.proxy && |t.entries| == |es|
      && forall i :: 0 <= i < |es| ==> t.entries[i].key == es[i].key
    case _ => t == f
  }

  lemma ThawHere(f: Json)
    requires IsFrozen(f)
    ensures ThawsTo(f, Thaw(f)) && Arity(Thaw(f)) == Arity(f)
    ensures forall i :: 0 <= i < Arity(f) ==> IsFrozen(Child(f, i)) && Child(Thaw(f), i) == Thaw(Child(f, i))
  {
    if f.Dict? {
      forall i | 0 <= i < |f.entries|
        ensures Thaw(f).entries[i] == ThawedEntry(f, i)
      {
      }
    }
  }

  lemma {:induction false} ThawedAt(f: Json, p: Path)
    requires IsFrozen(f)
    ensures At(Thaw(f), p).Some? <==> At(f, p).Some?
    ensures At(f, p).Some? ==> ThawsTo(At(f, p).value, At(Thaw(f), p).value)
    decreases |p|
  {
    ThawHere(f);
    hide Thaw;
    if p != [] && p[0] < Arity(f) {
      ThawedAt(Child(f, p[0]), p[1..]);
    }
  }

  // Counting

  function Under(i: nat, ps: seq<Path>): (r: seq<Path>)
    ensures |r| == |ps| && forall k :: 0 <= k < |r| ==> r[k] == [i] + ps[k]
  {
    seq(|ps|, k requires 0 <= k < |ps| => [i] + ps[k])
  }

  function Paths(v: Json): seq<Path>
    decreases v, Arity(v) + 1
  {
    [[]] + PathsUpTo(v, Arity(v))
  }

  function PathsUpTo(v: Json, n: nat): seq<Path>
    requires n <= Arity(v)
    decreases v, n
  {
    if n == 0 then [] else PathsUpTo(v, n - 1) + Under(n - 1, Paths(Child(v, n - 1)))
  }

  predicate Distinct(ps: seq<Path>) {
    forall a, b :: 0 <= a < b < |ps| ==> ps[a] != ps[b]
  }

  /** Every path of a value, each once. */
  ghost predicate Lists(v: Json, ps: seq<Path>) {
    Distinct(ps) && forall p :: p in ps <==> At(v, p).Some?
  }

  /** The paths that enter one of the first `n` children. */
  ghost predicate ListsUpTo(v: Json, n: nat, ps: seq<Path>) {
    Distinct(ps) && forall p :: p in ps <==> At(v, p).Some? && p != [] && p[0] < n
  }

  lemma MorePaths(v: Json, n: nat, ps: seq<Path>, qs: seq<Path>)
    requires n < Arity(v) && ListsUpTo(v, n, ps) && Lists(Child(v, n), qs)
    ensures ListsUpTo(v, n + 1, ps + Under(n, qs))
  {
    var us := Under(n, qs);
    forall p: Path
      ensures p in us <==> At(v, p).Some? && p != [] && p[0] == n
    {
      if p != [] && p[0] == n {
        assert p == [n] + p[1..];
        if p[1..] in qs {
          var k :| 0 <= k < |qs| && qs[k] == p[1..];
          assert us[k] == p;
        }
        if p in us {
          var k :| 0 <= k < |us| && us[k] == p;
          assert p[1..] == qs[k];
        }
      }
    }
    forall a, b | 0 <= a < b < |us|
      ensures us[a] != us[b]
    {
      assert us[a][1..] == qs[a] && us[b][1..] == qs[b];
    }
    JoinDistinct(ps, us);
  }

  lemma JoinDistinct(ps: seq<Path>, us: seq<Path>)
    requires Distinct(ps) && Distinct(us) && forall p :: p in ps ==> p !in us
    ensures Distinct(ps + us)
  {
    assert forall a :: 0 <= a < |ps| ==> ps[a] in ps;
    assert forall a :: 0 <= a < |us| ==> us[a] in us;
  }

  lemma RootAndRest(v: Json, ps: seq<Path>)
    requires ListsUpTo(v, Arity(v), ps)
    ensures Lists(v, [[]] + ps)
  {
    JoinDistinct([[]], ps);
    hide Distinct;
    assert forall p :: p in [[]] + ps <==> p == [] || p in ps;
  }

  lemma {:induction false} PathsExactly(v: Json)
    ensures Lists(v, Paths(v))
    decreases v, Arity(v) + 1
  {
    PathsUpToExactly(v, Arity(v));
    RootAndRest(v, PathsUpTo(v, Arity(v)));
  }

  lemma {:induction false} PathsUpToExactly(v: Json, n: nat)
    requires n <= Arity(v)
    ensures ListsUpTo(v, n, PathsUpTo(v, n))
    decreases v, n
  {
    if n > 0 {
      PathsUpToExactly(v, n - 1);
      PathsExactly(Child(v, n - 1));
      hide Lists, ListsUpTo, Paths;
      MorePaths(v, n - 1, PathsUpTo(v, n - 1), Paths(Child(v, n - 1)));
    }
  }

  function SumKeys(u: Normal, es: seq<Entry>): nat {
    if es == [] then 0
    else SumKeys(u, es[..|es| - 1]) + (var k := es[|es| - 1].key; if k.Some? then |u.nfc(k.value)| else 0)
  }

  /** A string's characters, or those of an object's keys in normal form. */
  function OwnChars(u: Normal, v: Json): nat {
    match v
    case Str(s) => |s|
    case Dict(_, es) => SumKeys(u, es)
    case _ => 0
  }

  function Total(u: Normal, v: Json, ps: seq<Path>): nat {
    if ps == [] then 0
    else Total(u, v, ps[..|ps| - 1]) + (var x := At(v, ps[|ps| - 1]); if x.Some? then OwnChars(u, x.value) else 0)
  }

  lemma {:induction false} TotalAppends(u: Normal, v: Json, a: seq<Path>, b: seq<Path>)
    ensures Total(u, v, a + b) == Total(u, v, a) + Total(u, v, b)
    decreases |b|
  {
    if b == [] {
      assert a + b == a;
    } else {
      assert (a + b)[..|a + b| - 1] == a + b[..|b| - 1];
      TotalAppends(u, v, a, b[..|b| - 1]);
    }
  }

  lemma {:induction false} TotalUnder(u: Normal, v: Json, i: nat, ps: seq<Path>)
    requires i < Arity(v)
    ensures Total(u, v, Under(i, ps)) == Total(u, Child(v, i), ps)
    decreases |ps|
  {
    if ps != [] {
      var last := ps[|ps| - 1];
      assert Under(i, ps)[..|ps| - 1] == Under(i, ps[..|ps| - 1]);
      TotalUnder(u, v, i, ps[..|ps| - 1]);
      DeeperPath(v, i, last);
    }
  }

  /** Key characters of the first `n` entries. */
  function KeysUpTo(u: Normal, v: Json, n: nat): nat
    requires n <= Arity(v)
  {
    if v.Dict? then SumKeys(u, v.entries[..n]) else 0
  }

  lemma KeysStep(u: Normal, v: Json, n: nat)
    requires Lawful(u) && n < Arity(v)
    ensures KeysUpTo(u, v, n + 1) == KeysUpTo(u, v, n) + KeyChars(u, v, n)
    ensures KeysUpTo(u, v, 0) == 0
  {
    if v.Dict? {
      assert v.entries[..n + 1][..n] == v.entries[..n];
      if v.entries[n].key.Some? {
        KeyIsNormalized(u, v.entries[n].key.value);
      }
    }
  }

  /** The budgets count the parts of a value and the characters of all of them. */
  lemma {:induction false} CountsExactly(u: Normal, v: Json)
    requires Lawful(u)
    ensures Nodes(v) == |Paths(v)| && Chars(u, v) == Total(u, v, Paths(v))
    decreases v, Arity(v) + 1
  {
    CountsUpTo(u, v, Arity(v));
    TotalAppends(u, v, [[]], PathsUpTo(v, Arity(v)));
    RootCounts(u, v);
  }

  lemma RootCounts(u: Normal, v: Json)
    ensures Total(u, v, [[]]) == if v.Str? then |v.s| else KeysUpTo(u, v, Arity(v))
  {
    var root: seq<Path> := [[]];
    assert root[..0] == [] && Total(u, v, root[..0]) == 0;
    if v.Dict? {
      assert v.entries[..|v.entries|] == v.entries;
    }
  }

  lemma {:induction false} CountsUpTo(u: Normal, v: Json, n: nat)
    requires Lawful(u) && n <= Arity(v)
    ensures NodesUpTo(v, n) == |PathsUpTo(v, n)|
    ensures CharsUpTo(u, v, n) == Total(u, v, PathsUpTo(v, n)) + KeysUpTo(u, v, n)
    decreases v, n
  {
    hide Lawful, Nodes, Chars, Paths, Total, KeysUpTo, KeyChars, NodesUpTo, CharsUpTo, PathsUpTo;
    if n > 0 {
      CountsUpTo(u, v, n - 1);
      CountsExactly(u, Child(v, n - 1));
      KeysStep(u, v, n - 1);
      TotalUnder(u, v, n - 1, Paths(Child(v, n - 1)));
      TotalAppends(u, v, PathsUpTo(v, n - 1), Under(n - 1, Paths(Child(v, n - 1))));
      OneMoreCount(u, v, n);
    } else {
      NothingCounts(u, v);
    }
  }

  lemma OneMoreCount(u: Normal, v: Json, n: nat)
    requires 0 < n <= Arity(v)
    ensures NodesUpTo(v, n) == NodesUpTo(v, n - 1) + Nodes(Child(v, n - 1))
    ensures CharsUpTo(u, v, n) == CharsUpTo(u, v, n - 1) + KeyChars(u, v, n - 1) + Chars(u, Child(v, n - 1))
    ensures PathsUpTo(v, n) == PathsUpTo(v, n - 1) + Under(n - 1, Paths(Child(v, n - 1)))
  {
    hide Nodes, Chars, KeyChars, Paths;
  }

  lemma NothingCounts(u: Normal, v: Json)
    ensures NodesUpTo(v, 0) == 0 && CharsUpTo(u, v, 0) == 0 && PathsUpTo(v, 0) == []
    ensures Total(u, v, []) == 0 && KeysUpTo(u, v, 0) == 0
  {
    if v.Dict? {
      assert v.entries[..0] == [];
    }
  }

  /** What is frozen, and to what, by any list of the value's paths. */
  lemma FrozenExactly(u: Normal, v: Json)
    requires Lawful(u)
    ensures Frozen(u, v).Some? <==>
              && AllParts(u, v, 0)
              && |Paths(v)| <= 10_000 && Total(u, v, Paths(v)) <= 1_048_576
    ensures Lists(v, Paths(v))
    ensures Frozen(u, v).Some? ==> forall p: Path ::
              && (At(Frozen(u, v).value, p).Some? <==> At(v, p).Some?)
              && (At(v, p).Some? ==> FreezesTo(u, At(v, p).value, At(Frozen(u, v).value, p).value))
  {
    hide Lawful, Sound, Canon, Nodes, Chars, Paths, Total, AllParts, Lists;
    SoundExactly(u, v, 0);
    CountsExactly(u, v);
    PathsExactly(v);
    forall p: Path
      ensures At(Canon(u, v), p).Some? <==> At(v, p).Some?
      ensures At(v, p).Some? ==> FreezesTo(u, At(v, p).value, At(Canon(u, v), p).value)
    {
      FrozenAt(u, v, p);
    }
  }
}
