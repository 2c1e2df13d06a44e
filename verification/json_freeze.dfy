/** Freezing a JSON value under shared budgets, with a fast path for flat objects. */
module JsonFreeze {
  import opened Basics

  const MAX_JSON_DEPTH: nat := 32
  const MAX_JSON_NODES: nat := 10_000
  const MAX_JSON_STRING_CHARS: nat := 1024 * 1024
  const MIN_SIGNED_INT64: int := -0x8000_0000_0000_0000
  const MAX_SIGNED_INT64: int := 0x7FFF_FFFF_FFFF_FFFF

  /** A value as it comes: lists and tuples, objects and read-only views of objects, and
      values of other types. */
  datatype Json =
    | Null
    | Bool(b: bool)
    | Int(n: int)
    | Float(finite: bool, bits: int)
    | Str(s: string)
    | List(tuple: bool, items: seq<Json>)
    | Dict(proxy: bool, entries: seq<Entry>)
    | Other

  /** `key` is absent when it is not a string. */
  datatype Entry = Entry(key: Option<string>, value: Json)

  /** Unicode normalization form C, of which it is used that it is idempotent and leaves
      ASCII text as it is. */
  datatype Normal = Normal(nfc: string -> string)

  ghost predicate Lawful(u: Normal) {
    && (forall s :: u.nfc(u.nfc(s)) == u.nfc(s))
    && (forall s :: (forall k :: 0 <= k < |s| ==> !NonAscii(s[k])) ==> u.nfc(s) == s)
  }

  function Key(u: Normal, s: string): string {
    if forall k :: 0 <= k < |s| ==> !NonAscii(s[k]) then s else u.nfc(s)
  }

  lemma KeyIsStable(u: Normal, s: string)
    requires Lawful(u)
    ensures Key(u, Key(u, s)) == Key(u, s)
  {
  }

  /** The shortcut for ASCII keys is no exception: keys are always normalized. */
  lemma KeyIsNormalized(u: Normal, s: string)
    requires Lawful(u)
    ensures Key(u, s) == u.nfc(s)
  {
  }

  // What is demanded of a value

  predicate ScalarOk(v: Json) {
    match v
    case Int(n) => MIN_SIGNED_INT64 <= n <= MAX_SIGNED_INT64
    case Float(finite, _) => finite
    case Other => false
    case _ => true
  }

  function Arity(v: Json): nat {
    match v
    case List(_, items) => |items|
    case Dict(_, entries) => |entries|
    case _ => 0
  }

  function Child(v: Json, i: nat): (c: Json)
    requires i < Arity(v)
    ensures c < v
  {
    match v
    case List(_, items) => items[i]
    case Dict(_, entries) => entries[i].value
  }

  predicate KeyOk(u: Normal, entries: seq<Entry>, j: nat)
    requires j < |entries|
  {
    entries[j].key.Some? && forall i :: 0 <= i < j && entries[i].key.Some? ==>
      Key(u, entries[i].key.value) != Key(u, entries[j].key.value)
  }

  /** String keys that stay distinct when normalized. */
  predicate KeysOk(u: Normal, v: Json) {
    v.Dict? ==> forall j :: 0 <= j < |v.entries| ==> KeyOk(u, v.entries, j)
  }

  /** Exact JSON all the way down, and no deeper than the limit. */
  predicate Sound(u: Normal, v: Json, depth: nat)
    decreases v
  {
    && depth <= MAX_JSON_DEPTH && ScalarOk(v) && KeysOk(u, v)
    && forall i :: 0 <= i < Arity(v) ==> Sound(u, Child(v, i), depth + 1)
  }

  /** The nodes of a value; one for itself. */
  function Nodes(v: Json): nat
    decreases v, Arity(v) + 1
  {
    1 + NodesUpTo(v, Arity(v))
  }

  function NodesUpTo(v: Json, n: nat): nat
    requires n <= Arity(v)
    decreases v, n
  {
    if n == 0 then 0 else NodesUpTo(v, n - 1) + Nodes(Child(v, n - 1))
  }

  function KeyChars(u: Normal, v: Json, i: nat): nat
    requires i < Arity(v)
  {
    if v.Dict? && v.entries[i].key.Some? then |Key(u, v.entries[i].key.value)| else 0
  }

  /** The characters of a value's strings and normalized keys. */
  function Chars(u: Normal, v: Json): nat
    decreases v, Arity(v) + 1
  {
    if v.Str? then |v.s| else CharsUpTo(u, v, Arity(v))
  }

  function CharsUpTo(u: Normal, v: Json, n: nat): nat
    requires n <= Arity(v)
    decreases v, n
  {
    if n == 0 then 0 else CharsUpTo(u, v, n - 1) + KeyChars(u, v, n - 1) + Chars(u, Child(v, n - 1))
  }

  /** The frozen form: tuples, read-only objects and normalized keys. */
  function Canon(u: Normal, v: Json): Json
    decreases v
  {
    match v
    case List(_, items) => List(true, seq(|items|, i requires 0 <= i < |items| => Canon(u, items[i])))
    case Dict(_, entries) => Dict(true, seq(|entries|, i requires 0 <= i < |entries| => FrozenEntry(u, v, i)))
    case _ => v
  }

  function FrozenEntry(u: Normal, v: Json, i: nat): Entry
    requires v.Dict? && i < |v.entries|
    decreases v, 0
  {
    Entry(if v.entries[i].key.Some? then Some(Key(u, v.entries[i].key.value)) else None, Canon(u, Child(v, i)))
  }

  /** What freezing yields: the frozen form of a sound value within all three limits. */
  function Frozen(u: Normal, v: Json): Option<Json> {
    if Sound(u, v, 0) && Nodes(v) <= MAX_JSON_NODES && Chars(u, v) <= MAX_JSON_STRING_CHARS then Some(Canon(u, v)) else None
  }

  lemma {:induction false} UpToMonotone(u: Normal, v: Json, m: nat, n: nat)
    requires m <= n <= Arity(v)
    ensures NodesUpTo(v, m) + (n - m) <= NodesUpTo(v, n) && CharsUpTo(u, v, m) <= CharsUpTo(u, v, n)
    decreases n
  {
    if m < n {
      UpToMonotone(u, v, m, n - 1);
    }
  }

  // The recursion with its shared counters

  /** What freezing part of a value yields when `nodes` and `chars` are already spent. */
  predicate Affordable(u: Normal, v: Json, nodes: nat, chars: nat) {
    nodes + Nodes(v) <= MAX_JSON_NODES && chars + Chars(u, v) <= MAX_JSON_STRING_CHARS
  }

  /** The first `n` children are sound and paid for. */
  predicate FrontOk(u: Normal, v: Json, n: nat, depth: nat, nodes: nat, chars: nat)
    requires n <= Arity(v)
  {
    && (forall i :: 0 <= i < n ==> Sound(u, Child(v, i), depth + 1))
    && (v.Dict? ==> forall j :: 0 <= j < n ==> KeyOk(u, v.entries, j))
    && nodes + NodesUpTo(v, n) <= MAX_JSON_NODES && chars + CharsUpTo(u, v, n) <= MAX_JSON_STRING_CHARS
  }

  /** A value with children is accepted when all of them are. */
  lemma AllChildren(u: Normal, v: Json, depth: nat, nodes: nat, chars: nat)
    requires v.List? || v.Dict?
    ensures Sound(u, v, depth) && Affordable(u, v, nodes, chars) <==>
              depth <= MAX_JSON_DEPTH && nodes + 1 <= MAX_JSON_NODES && chars <= MAX_JSON_STRING_CHARS
              && FrontOk(u, v, Arity(v), depth, nodes + 1, chars)
  {
  }

  /** A child that is refused or not affordable, or a key that clashes, refuses all. */
  lemma ChildDecides(u: Normal, v: Json, n: nat, depth: nat, nodes: nat, chars: nat)
    requires n < Arity(v)
    requires || !Sound(u, Child(v, n), depth + 1)
             || (v.Dict? && !KeyOk(u, v.entries, n))
             || nodes + NodesUpTo(v, n) + Nodes(Child(v, n)) > MAX_JSON_NODES
             || chars + CharsUpTo(u, v, n) + KeyChars(u, v, n) + Chars(u, Child(v, n)) > MAX_JSON_STRING_CHARS
    ensures !FrontOk(u, v, Arity(v), depth, nodes, chars)
  {
    UpToMonotone(u, v, n + 1, Arity(v));
    hide Sound, KeyOk, Nodes, Chars;
  }

  lemma OneMoreChild(u: Normal, v: Json, n: nat, depth: nat, nodes: nat, chars: nat)
    requires n < Arity(v) && FrontOk(u, v, n, depth, nodes, chars)
    requires Sound(u, Child(v, n), depth + 1) && (v.Dict? ==> KeyOk(u, v.entries, n))
    requires nodes + NodesUpTo(v, n) + Nodes(Child(v, n)) <= MAX_JSON_NODES
    requires chars + CharsUpTo(u, v, n) + KeyChars(u, v, n) + Chars(u, Child(v, n)) <= MAX_JSON_STRING_CHARS
    ensures FrontOk(u, v, n + 1, depth, nodes, chars)
    ensures NodesUpTo(v, n + 1) == NodesUpTo(v, n) + Nodes(Child(v, n))
    ensures CharsUpTo(u, v, n + 1) == CharsUpTo(u, v, n) + KeyChars(u, v, n) + Chars(u, Child(v, n))
  {
    hide Sound, KeyOk, Nodes, Chars;
  }

  lemma PlainScalar(u: Normal, v: Json, depth: nat)
    requires !v.List? && !v.Dict?
    ensures Nodes(v) == 1 && Chars(u, v) == (if v.Str? then |v.s| else 0) && Canon(u, v) == v
    ensures Sound(u, v, depth) <==> depth <= MAX_JSON_DEPTH && ScalarOk(v)
  {
  }

  lemma NothingYet(u: Normal, v: Json, depth: nat, nodes: nat, chars: nat)
    requires nodes <= MAX_JSON_NODES && chars <= MAX_JSON_STRING_CHARS
    ensures FrontOk(u, v, 0, depth, nodes, chars) && NodesUpTo(v, 0) == 0 && CharsUpTo(u, v, 0) == 0
    ensures v.Dict? ==> SeenKeys(u, v.entries, 0, {}) && FrozenUpTo(u, v, 0, [])
  {
  }

  lemma AllItems(u: Normal, v: Json, frozen: seq<Json>)
    requires v.List? && |frozen| == |v.items| && forall k :: 0 <= k < |frozen| ==> frozen[k] == Canon(u, v.items[k])
    ensures Canon(u, v) == List(true, frozen)
  {
  }

  /** The first `n` entries of an object in frozen form. */
  ghost predicate FrozenUpTo(u: Normal, v: Json, n: nat, frozen: seq<Entry>)
    requires v.Dict? && n <= |v.entries|
  {
    |frozen| == n && forall k :: 0 <= k < n ==> frozen[k] == FrozenEntry(u, v, k)
  }

  lemma OneMoreEntry(u: Normal, v: Json, n: nat, frozen: seq<Entry>, entry: Entry)
    requires v.Dict? && n < |v.entries| && FrozenUpTo(u, v, n, frozen) && entry == FrozenEntry(u, v, n)
    ensures FrozenUpTo(u, v, n + 1, frozen + [entry])
  {
    hide FrozenEntry;
  }

  lemma AllEntries(u: Normal, v: Json, frozen: seq<Entry>)
    requires v.Dict? && FrozenUpTo(u, v, |v.entries|, frozen)
    ensures Canon(u, v) == Dict(true, frozen)
  {
    hide FrozenEntry;
  }

  class Freezer {
    const u: Normal
    var nodes: nat
    var chars: nat

    constructor (u: Normal)
      ensures this.u == u && nodes == 0 && chars == 0
    {
      this.u := u;
      nodes, chars := 0, 0;
    }

    /** The inner `freeze`: the counters rise by exactly the value's own nodes and
        characters, and the value is refused exactly when it is unsound or would pass a
        limit together with what was spent before. */
    method Freeze(v: Json, depth: nat) returns (r: Option<Json>)
      requires nodes <= MAX_JSON_NODES && chars <= MAX_JSON_STRING_CHARS
      modifies this
      decreases v, 2
      ensures r == if Sound(u, v, depth) && Affordable(u, v, old(nodes), old(chars)) then Some(Canon(u, v)) else None
      ensures r.Some? ==> nodes == old(nodes) + Nodes(v) && chars == old(chars) + Chars(u, v)
    {
      if depth > MAX_JSON_DEPTH {
        return None;
      }
      nodes := nodes + 1;
      if nodes > MAX_JSON_NODES {
        return None;
      }
      match v {
        case Str(s) =>
          PlainScalar(u, v, depth);
          chars := chars + |s|;
          return if chars > MAX_JSON_STRING_CHARS then None else Some(v);
        case List(_, _) =>
          AllChildren(u, v, depth, nodes - 1, chars);
          r := FreezeItems(v, depth);
        case Dict(_, _) =>
          AllChildren(u, v, depth, nodes - 1, chars);
          r := FreezeEntries(v, depth);
        case _ =>
          PlainScalar(u, v, depth);
          return if ScalarOk(v) then Some(v) else None;
      }
    }

    method FreezeItems(v: Json, depth: nat) returns (r: Option<Json>)
      requires v.List? && nodes <= MAX_JSON_NODES && chars <= MAX_JSON_STRING_CHARS
      modifies this
      decreases v, 1
      ensures r == if FrontOk(u, v, Arity(v), depth, old(nodes), old(chars)) then Some(Canon(u, v)) else None
      ensures r.Some? ==> nodes == old(nodes) + NodesUpTo(v, Arity(v)) && chars == old(chars) + CharsUpTo(u, v, Arity(v))
    {
      NothingYet(u, v, depth, nodes, chars);
      hide Sound, Key, KeyOk, Nodes, Chars, NodesUpTo, CharsUpTo, Canon, FrontOk, KeyChars;
      var frozen: seq<Json> := [];
      var i := 0;
      while i < |v.items|
        invariant 0 <= i <= |v.items| && |frozen| == i && forall k :: 0 <= k < i ==> frozen[k] == Canon(u, v.items[k])
        invariant FrontOk(u, v, i, depth, old(nodes), old(chars))
        invariant nodes == old(nodes) + NodesUpTo(v, i) && chars == old(chars) + CharsUpTo(u, v, i)
      {
        var item := FreezeItem(v, i, depth, old(nodes), old(chars));
        if item.None? {
          return None;
        }
        frozen := frozen + [item.value];
        i := i + 1;
      }
      AllItems(u, v, frozen);
      return Some(List(true, frozen));
    }

    /** One item of a list. */
    method FreezeItem(v: Json, i: nat, depth: nat, ghost nodes0: nat, ghost chars0: nat) returns (r: Option<Json>)
      requires v.List? && i < |v.items| && FrontOk(u, v, i, depth, nodes0, chars0)
      requires nodes == nodes0 + NodesUpTo(v, i) && chars == chars0 + CharsUpTo(u, v, i)
      modifies this
      decreases v, 0
      ensures r.None? ==> !FrontOk(u, v, Arity(v), depth, nodes0, chars0)
      ensures r.Some? ==>
                && r.value == Canon(u, v.items[i]) && FrontOk(u, v, i + 1, depth, nodes0, chars0)
                && nodes == nodes0 + NodesUpTo(v, i + 1) && chars == chars0 + CharsUpTo(u, v, i + 1)
    {
      assert nodes <= MAX_JSON_NODES && chars <= MAX_JSON_STRING_CHARS && KeyChars(u, v, i) == 0;
      hide Sound, Key, KeyOk, Nodes, Chars, NodesUpTo, CharsUpTo, Canon, FrontOk, KeyChars;
      r := Freeze(v.items[i], depth + 1);
      if r.None? {
        ChildDecides(u, v, i, depth, nodes0, chars0);
      } else {
        OneMoreChild(u, v, i, depth, nodes0, chars0);
      }
    }

    method FreezeEntries(v: Json, depth: nat) returns (r: Option<Json>)
      requires v.Dict? && nodes <= MAX_JSON_NODES && chars <= MAX_JSON_STRING_CHARS
      modifies this
      decreases v, 1
      ensures r == if FrontOk(u, v, Arity(v), depth, old(nodes), old(chars)) then Some(Canon(u, v)) else None
      ensures r.Some? ==> nodes == old(nodes) + NodesUpTo(v, Arity(v)) && chars == old(chars) + CharsUpTo(u, v, Arity(v))
    {
      NothingYet(u, v, depth, nodes, chars);
      hide Sound, Key, KeyOk, Nodes, Chars, NodesUpTo, CharsUpTo, Canon, FrontOk, SeenKeys, FrozenUpTo;
      var frozen: seq<Entry> := [];
      var seen: set<string> := {};
      var i := 0;
      while i < |v.entries|
        invariant 0 <= i <= |v.entries| && FrozenUpTo(u, v, i, frozen)
        invariant FrontOk(u, v, i, depth, old(nodes), old(chars)) && SeenKeys(u, v.entries, i, seen)
        invariant nodes == old(nodes) + NodesUpTo(v, i) && chars == old(chars) + CharsUpTo(u, v, i)
      {
        var item := FreezeEntry(v, i, depth, seen, old(nodes), old(chars));
        if item.None? {
          return None;
        }
        var normalized := Key(u, v.entries[i].key.value);
        SeenDecides(u, v.entries, i, seen);
        seen := seen + {normalized};
        OneMoreEntry(u, v, i, frozen, Entry(Some(normalized), item.value));
        frozen := frozen + [Entry(Some(normalized), item.value)];
        i := i + 1;
      }
      AllEntries(u, v, frozen);
      return Some(Dict(true, frozen));
    }

    /** One entry of an object: its key, then its value. */
    method FreezeEntry(v: Json, i: nat, depth: nat, seen: set<string>, ghost nodes0: nat, ghost chars0: nat)
      returns (r: Option<Json>)
      requires v.Dict? && i < |v.entries| && FrontOk(u, v, i, depth, nodes0, chars0) && SeenKeys(u, v.entries, i, seen)
      requires nodes == nodes0 + NodesUpTo(v, i) && chars == chars0 + CharsUpTo(u, v, i)
      modifies this
      decreases v, 0
      ensures r.None? ==> !FrontOk(u, v, Arity(v), depth, nodes0, chars0)
      ensures r.Some? ==>
                && v.entries[i].key.Some? && FrozenEntry(u, v, i) == Entry(Some(Key(u, v.entries[i].key.value)), r.value)
                && FrontOk(u, v, i + 1, depth, nodes0, chars0)
                && nodes == nodes0 + NodesUpTo(v, i + 1) && chars == chars0 + CharsUpTo(u, v, i + 1)
    {
      assert nodes <= MAX_JSON_NODES;
      hide Sound, Key, KeyOk, Nodes, Chars, NodesUpTo, CharsUpTo, Canon, FrontOk, SeenKeys;
      r := None;
      var key := v.entries[i].key;
      if key.None? {
        NoKey(u, v, i);
        ChildDecides(u, v, i, depth, nodes0, chars0);
        return;
      }
      var normalized := Key(u, key.value);
      SeenDecides(u, v.entries, i, seen);
      chars := chars + |normalized|;
      if chars > MAX_JSON_STRING_CHARS || normalized in seen {
        ChildDecides(u, v, i, depth, nodes0, chars0);
        return;
      }
      r := Freeze(v.entries[i].value, depth + 1);
      if r.None? {
        ChildDecides(u, v, i, depth, nodes0, chars0);
        return;
      }
      OneMoreChild(u, v, i, depth, nodes0, chars0);
    }
  }

  /** The keys already in the result. */
  predicate SeenKeys(u: Normal, entries: seq<Entry>, n: nat, seen: set<string>)
    requires n <= |entries|
  {
    && (forall i :: 0 <= i < n ==> entries[i].key.Some? && Key(u, entries[i].key.value) in seen)
    && (forall x :: x in seen ==> exists i :: 0 <= i < n && entries[i].key.Some? && Key(u, entries[i].key.value) == x)
  }

  lemma SeenDecides(u: Normal, entries: seq<Entry>, n: nat, seen: set<string>)
    requires n < |entries| && SeenKeys(u, entries, n, seen) && entries[n].key.Some?
    ensures KeyOk(u, entries, n) <==> Key(u, entries[n].key.value) !in seen
    ensures SeenKeys(u, entries, n + 1, seen + {Key(u, entries[n].key.value)})
  {
    hide Key;
  }

  // The fast path for flat objects

  datatype Flat = NotFlat | RefusedFlat | FrozenFlat(json: Json)

  predicate IsScalar(v: Json) {
    !v.List? && !v.Dict? && !v.Other?
  }

  /** The one-pass form. It gives up at the first value that is not a scalar; what it
      refuses or freezes before that is decided as by the recursion. */
  method FreezeFlat(u: Normal, v: Json) returns (r: Flat)
    requires v.Dict?
    ensures r.RefusedFlat? ==> Frozen(u, v) == None
    ensures r.FrozenFlat? ==> Frozen(u, v) == Some(r.json)
  {
    AllChildren(u, v, 0, 0, 0);
    if |v.entries| + 1 > MAX_JSON_NODES {
      UpToMonotone(u, v, 0, Arity(v));
      return RefusedFlat;
    }
    NothingYet(u, v, 0, 1, 0);
    var frozen: seq<Entry> := [];
    var seen: set<string> := {};
    var chars, i := 0, 0;
    hide Sound, Key, KeyOk, Nodes, Chars, NodesUpTo, CharsUpTo, Canon, FrontOk, SeenKeys, FrozenUpTo;
    while i < |v.entries|
      invariant 0 <= i <= |v.entries| && FrozenUpTo(u, v, i, frozen)
      invariant FrontOk(u, v, i, 0, 1, 0) && SeenKeys(u, v.entries, i, seen)
      invariant NodesUpTo(v, i) == i && chars == CharsUpTo(u, v, i)
    {
      var entry, next := FlatEntry(u, v, i, seen, chars);
      if entry.NotFlat? || entry.RefusedFlat? {
        return entry;
      }
      var normalized := Key(u, v.entries[i].key.value);
      SeenDecides(u, v.entries, i, seen);
      seen, chars := seen + {normalized}, next;
      OneMoreEntry(u, v, i, frozen, Entry(Some(normalized), entry.json));
      frozen := frozen + [Entry(Some(normalized), entry.json)];
      i := i + 1;
    }
    AllEntries(u, v, frozen);
    return FrozenFlat(Dict(true, frozen));
  }

  /** One entry of the fast path, with the characters spent after it. */
  method FlatEntry(u: Normal, v: Json, i: nat, seen: set<string>, chars0: nat) returns (r: Flat, chars: nat)
    requires v.Dict? && i < |v.entries| && |v.entries| + 1 <= MAX_JSON_NODES
    requires FrontOk(u, v, i, 0, 1, 0) && SeenKeys(u, v.entries, i, seen)
    requires NodesUpTo(v, i) == i && chars0 == CharsUpTo(u, v, i)
    ensures r.RefusedFlat? ==> !FrontOk(u, v, Arity(v), 0, 1, 0)
    ensures r.FrozenFlat? ==>
              && v.entries[i].key.Some? && FrozenEntry(u, v, i) == Entry(Some(Key(u, v.entries[i].key.value)), r.json)
              && FrontOk(u, v, i + 1, 0, 1, 0) && NodesUpTo(v, i + 1) == i + 1 && chars == CharsUpTo(u, v, i + 1)
  {
    hide Sound, Key, KeyOk, Nodes, Chars, NodesUpTo, CharsUpTo, Canon, FrontOk, SeenKeys;
    chars := chars0;
    var key, item := v.entries[i].key, v.entries[i].value;
    if key.None? {
      NoKey(u, v, i);
      ChildDecides(u, v, i, 0, 1, 0);
      return RefusedFlat, chars;
    }
    var normalized := Key(u, key.value);
    SeenDecides(u, v.entries, i, seen);
    chars := chars + |normalized|;
    if normalized in seen {
      ChildDecides(u, v, i, 0, 1, 0);
      return RefusedFlat, chars;
    }
    if !IsScalar(item) {
      return NotFlat, chars;
    }
    PlainScalar(u, item, 1);
    if item.Str? {
      chars := chars + |item.s|;
    }
    if !ScalarOk(item) || chars > MAX_JSON_STRING_CHARS {
      ChildDecides(u, v, i, 0, 1, 0);
      return RefusedFlat, chars;
    }
    OneMoreChild(u, v, i, 0, 1, 0);
    return FrozenFlat(item), chars;
  }

  lemma NoKey(u: Normal, v: Json, i: nat)
    requires v.Dict? && i < |v.entries| && v.entries[i].key.None?
    ensures !KeyOk(u, v.entries, i)
  {
  }

  /** `_freeze_json`: with or without the fast path, the same values are accepted and
      frozen to the same result. */
  method FreezeJson(u: Normal, v: Json) returns (r: Option<Json>)
    ensures r == Frozen(u, v)
  {
    if v.Dict? && !v.proxy {
      var flat := FreezeFlat(u, v);
      if flat.RefusedFlat? {
        return None;
      }
      if flat.FrozenFlat? {
        return Some(flat.json);
      }
    }
    var freezer := new Freezer(u);
    r := freezer.Freeze(v, 0);
  }

  /** Keys of one normalized form are refused together, and every key of a frozen object
      is the normalized form of the one it came from. */
  lemma KeysExactly(u: Normal, v: Json)
    requires Lawful(u) && v.Dict?
    ensures (exists i, j :: 0 <= i < j < |v.entries| && v.entries[i].key.Some? && v.entries[j].key.Some?
                            && u.nfc(v.entries[i].key.value) == u.nfc(v.entries[j].key.value)) ==> Frozen(u, v) == None
    ensures Frozen(u, v).Some? ==>
              var f := Frozen(u, v).value;
              && f.Dict? && |f.entries| == |v.entries|
              && forall i :: 0 <= i < |v.entries| ==>
                   v.entries[i].key.Some? && f.entries[i].key == Some(u.nfc(v.entries[i].key.value))
  {
    forall i | 0 <= i < |v.entries| && v.entries[i].key.Some?
      ensures Key(u, v.entries[i].key.value) == u.nfc(v.entries[i].key.value)
    {
      KeyIsNormalized(u, v.entries[i].key.value);
    }
    hide Lawful, Key, Nodes, Chars;
    if i, j :| 0 <= i < j < |v.entries| && v.entries[i].key.Some? && v.entries[j].key.Some?
               && u.nfc(v.entries[i].key.value) == u.nfc(v.entries[j].key.value) {
      assert !KeyOk(u, v.entries, j);
    }
    if Frozen(u, v).Some? {
      forall i | 0 <= i < |v.entries|
        ensures v.entries[i].key.Some? && Frozen(u, v).value.entries[i].key == Some(u.nfc(v.entries[i].key.value))
      {
        assert KeyOk(u, v.entries, i);
        assert Frozen(u, v).value.entries[i] == FrozenEntry(u, v, i);
      }
    }
  }

  // Thawing

  predicate IsFrozen(v: Json)
    decreases v
  {
    match v
    case List(tuple, items) => tuple && forall i :: 0 <= i < |items| ==> IsFrozen(items[i])
    case Dict(proxy, entries) => proxy && forall i :: 0 <= i < |entries| ==> IsFrozen(entries[i].value)
    case _ => !v.Other?
  }

  /** `_thaw_json`: plain lists and objects again. */
  function Thaw(v: Json): Json
    requires IsFrozen(v)
    decreases v
  {
    match v
    case List(_, items) => List(false, seq(|items|, i requires 0 <= i < |items| => Thaw(items[i])))
    case Dict(_, entries) => Dict(false, seq(|entries|, i requires 0 <= i < |entries| => ThawedEntry(v, i)))
    case _ => v
  }

  function ThawedEntry(v: Json, i: nat): Entry
    requires v.Dict? && IsFrozen(v) && i < |v.entries|
    decreases v, 0
  {
    Entry(v.entries[i].key, Thaw(Child(v, i)))
  }

  /** Freezing leaves a frozen value, which counts as much and freezes to itself; and
      the same holds of it after thawing. */
  ghost predicate Stable(u: Normal, v: Json, depth: nat) {
    var f := Canon(u, v);
    && IsFrozen(f)
    && (var t := Thaw(f); Sound(u, t, depth) && Nodes(t) == Nodes(v) && Chars(u, t) == Chars(u, v) && Canon(u, t) == f)
  }

  ghost predicate ChildrenStable(u: Normal, v: Json, depth: nat) {
    forall i :: 0 <= i < Arity(v) ==> Stable(u, Child(v, i), depth + 1)
  }

  lemma ChildrenFreeze(u: Normal, v: Json, depth: nat)
    requires (v.List? || v.Dict?) && ChildrenStable(u, v, depth)
    ensures var f := Canon(u, v);
            && IsFrozen(f) && Arity(f) == Arity(v)
            && forall i :: 0 <= i < Arity(v) ==> Child(f, i) == Canon(u, Child(v, i))
  {
    forall i | 0 <= i < Arity(v)
      ensures IsFrozen(Child(Canon(u, v), i)) && Child(Canon(u, v), i) == Canon(u, Child(v, i))
    {
      assert Stable(u, Child(v, i), depth + 1);
    }
    var f := Canon(u, v);
    if v.List? {
      assert forall i :: 0 <= i < |f.items| ==> f.items[i] == Child(f, i);
    } else {
      assert forall i :: 0 <= i < |f.entries| ==> f.entries[i].value == Child(f, i);
    }
  }

  lemma ThawedChildren(f: Json)
    requires IsFrozen(f) && (f.List? || f.Dict?)
    ensures var t := Thaw(f);
            && Arity(t) == Arity(f) && (t.Dict? <==> f.Dict?) && (t.List? <==> f.List?)
            && forall i :: 0 <= i < Arity(f) ==> IsFrozen(Child(f, i)) && Child(t, i) == Thaw(Child(f, i))
  {
  }

  lemma ThawedKeys(u: Normal, v: Json)
    requires Lawful(u) && v.Dict? && KeysOk(u, v) && IsFrozen(Canon(u, v))
    ensures var t := Thaw(Canon(u, v));
            && t.Dict? && |t.entries| == |v.entries| && KeysOk(u, t)
            && forall i :: 0 <= i < |v.entries| ==>
                 v.entries[i].key.Some? && t.entries[i].key == Some(Key(u, v.entries[i].key.value))
  {
    var f := Canon(u, v);
    var t := Thaw(Canon(u, v));
    forall i | 0 <= i < |v.entries|
      ensures v.entries[i].key.Some? && t.entries[i].key == Some(Key(u, v.entries[i].key.value))
      ensures Key(u, t.entries[i].key.value) == t.entries[i].key.value
    {
      assert KeyOk(u, v.entries, i);
      KeyIsStable(u, v.entries[i].key.value);
      assert f.entries[i] == FrozenEntry(u, v, i) && t.entries[i] == ThawedEntry(f, i);
    }
    hide Lawful, Key, Thaw, Canon;
    forall j | 0 <= j < |t.entries|
      ensures KeyOk(u, t.entries, j)
    {
      assert KeyOk(u, v.entries, j);
    }
  }

  lemma {:induction false} ThawedCounts(u: Normal, v: Json, t: Json, n: nat)
    requires n <= Arity(v) == Arity(t)
    requires forall i :: 0 <= i < n ==> Nodes(Child(t, i)) == Nodes(Child(v, i)) && Chars(u, Child(t, i)) == Chars(u, Child(v, i))
    requires forall i :: 0 <= i < n ==> KeyChars(u, t, i) == KeyChars(u, v, i)
    ensures NodesUpTo(t, n) == NodesUpTo(v, n) && CharsUpTo(u, t, n) == CharsUpTo(u, v, n)
    decreases n
  {
    if n > 0 {
      hide Nodes, Chars, KeyChars;
      ThawedCounts(u, v, t, n - 1);
    }
  }

  lemma ThawedKeyChars(u: Normal, v: Json, t: Json)
    requires Lawful(u) && v.Dict? && t.Dict? && KeysOk(u, v) && |t.entries| == |v.entries|
    requires forall i :: 0 <= i < |v.entries| && v.entries[i].key.Some? ==> t.entries[i].key == Some(Key(u, v.entries[i].key.value))
    ensures forall i :: 0 <= i < |v.entries| ==> KeyChars(u, t, i) == KeyChars(u, v, i)
  {
    forall i | 0 <= i < |v.entries|
      ensures KeyChars(u, t, i) == KeyChars(u, v, i)
    {
      assert KeyOk(u, v.entries, i);
      KeyIsStable(u, v.entries[i].key.value);
    }
  }

  lemma SameCanonList(u: Normal, v: Json, t: Json)
    requires v.List? && t.List? && Arity(t) == Arity(v)
    requires forall i :: 0 <= i < Arity(v) ==> Canon(u, Child(t, i)) == Canon(u, Child(v, i))
    ensures Canon(u, t) == Canon(u, v)
  {
    forall i | 0 <= i < Arity(v)
      ensures Canon(u, t.items[i]) == Canon(u, v.items[i])
    {
      assert Canon(u, Child(t, i)) == Canon(u, Child(v, i));
    }
  }

  lemma SameCanonDict(u: Normal, v: Json, t: Json)
    requires Lawful(u) && v.Dict? && t.Dict? && KeysOk(u, v) && |t.entries| == |v.entries|
    requires forall i :: 0 <= i < |v.entries| && v.entries[i].key.Some? ==> t.entries[i].key == Some(Key(u, v.entries[i].key.value))
    requires forall i :: 0 <= i < Arity(v) ==> Canon(u, Child(t, i)) == Canon(u, Child(v, i))
    ensures Canon(u, t) == Canon(u, v)
  {
    forall i | 0 <= i < |v.entries|
      ensures FrozenEntry(u, t, i) == FrozenEntry(u, v, i)
    {
      assert KeyOk(u, v.entries, i);
      KeyIsStable(u, v.entries[i].key.value);
      assert Canon(u, Child(t, i)) == Canon(u, Child(v, i));
    }
  }

  lemma {:induction false} FreezingIsStable(u: Normal, v: Json, depth: nat)
    requires Lawful(u) && Sound(u, v, depth)
    ensures Stable(u, v, depth)
    decreases v
  {
    forall i | 0 <= i < Arity(v)
      ensures Stable(u, Child(v, i), depth + 1)
    {
      FreezingIsStable(u, Child(v, i), depth + 1);
    }
    if v.List? || v.Dict? {
      ChildrenAreEnough(u, v, depth);
    } else {
      PlainScalar(u, v, depth);
    }
  }

  lemma ChildrenAreEnough(u: Normal, v: Json, depth: nat)
    requires Lawful(u) && Sound(u, v, depth) && (v.List? || v.Dict?) && ChildrenStable(u, v, depth)
    ensures Stable(u, v, depth)
  {
    assert KeysOk(u, v) && depth <= MAX_JSON_DEPTH;
    ChildrenFreeze(u, v, depth);
    var f := Canon(u, v);
    ThawedChildren(f);
    var t := Thaw(f);
    forall i | 0 <= i < Arity(v)
      ensures Sound(u, Child(t, i), depth + 1) && Canon(u, Child(t, i)) == Canon(u, Child(v, i))
      ensures Nodes(Child(t, i)) == Nodes(Child(v, i)) && Chars(u, Child(t, i)) == Chars(u, Child(v, i))
    {
      assert Stable(u, Child(v, i), depth + 1);
    }
    hide Stable, ChildrenStable;
    if v.Dict? {
      ThawedKeys(u, v);
      ThawedKeyChars(u, v, t);
      SameCanonDict(u, v, t);
    } else {
      SameCanonList(u, v, t);
    }
    hide Lawful, Canon, Thaw, Key, KeysOk;
    ThawedCounts(u, v, t, Arity(v));
    StableFrom(u, v, depth, f, t);
  }

  lemma StableFrom(u: Normal, v: Json, depth: nat, f: Json, t: Json)
    requires (v.List? || v.Dict?) && (t.List? || t.Dict?) && f == Canon(u, v) && IsFrozen(f) && t == Thaw(f) && Arity(t) == Arity(v)
    requires depth <= MAX_JSON_DEPTH && KeysOk(u, t) && Canon(u, t) == f
    requires forall i :: 0 <= i < Arity(t) ==> Sound(u, Child(t, i), depth + 1)
    requires NodesUpTo(t, Arity(t)) == NodesUpTo(v, Arity(v)) && CharsUpTo(u, t, Arity(t)) == CharsUpTo(u, v, Arity(v))
    ensures Stable(u, v, depth)
  {
    hide Canon, Thaw, KeysOk, IsFrozen;
  }

  /** Freeze, thaw and freeze again: the same value. */
  lemma FreezeThawFreeze(u: Normal, v: Json)
    requires Lawful(u) && Frozen(u, v).Some?
    ensures var f := Frozen(u, v).value;
            IsFrozen(f) && Frozen(u, Thaw(f)) == Some(f)
  {
    hide Lawful;
    FreezingIsStable(u, v, 0);
  }
}
