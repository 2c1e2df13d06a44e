/** Selecting wheels for a release bundle and verifying a bundle: two worklists over the
    requirement graph, whatever order names are taken in. */
module WheelClosure {
  import opened Basics
  import opened DependencyGraph

  /** A requirement whose marker was evaluated for the one supported platform. */
  datatype Requirement = Requirement(name: Name, applies: bool, admits: string -> bool)

  datatype Wheel = Wheel(version: string, compatible: bool, needs: seq<Requirement>)

  /** `sameVersion` compares versions as the release tool does. */
  datatype Policy = Policy(directPins: seq<(Name, string)>, resolvedPins: seq<(Name, string)>, sameVersion: (string, string) -> bool)

  const BUILD_TOOLS: set<Name> := {"setuptools", "wheel"}
  const PRODUCTS: set<Name> := {"stm32-toolkit", "stm32-monitor"}

  function PinNames(pins: seq<(Name, string)>): set<Name> {
    set p | p in pins :: p.0
  }

  function Roots(policy: Policy): set<Name> {
    PinNames(policy.directPins) - BUILD_TOOLS - PRODUCTS
  }

  /** `_expected_direct_names`. */
  function Expected(policy: Policy): set<Name> {
    PinNames(policy.directPins) - BUILD_TOOLS + PRODUCTS
  }

  /** The names a wheel's applicable requirements ask for. */
  function Asked(needs: seq<Requirement>): set<Name> {
    set k | 0 <= k < |needs| && needs[k].applies :: needs[k].name
  }

  function Compatible(ws: seq<Wheel>): seq<Wheel> {
    if ws == [] then [] else (if ws[0].compatible then [ws[0]] else []) + Compatible(ws[1..])
  }

  type Wheelhouse = map<Name, seq<Wheel>>

  /** What the selection follows: names with exactly one compatible wheel. */
  function HouseGraph(house: Wheelhouse): Graph {
    map n | n in house && |Compatible(house[n])| == 1 :: Asked(Compatible(house[n])[0].needs)
  }

  function BundleGraph(bundle: map<Name, Wheel>): Graph {
    map n | n in bundle :: Asked(bundle[n].needs)
  }

  /** Exactly one wheel, and it is compatible. */
  predicate Sole(house: Wheelhouse, n: Name) {
    n in house && |house[n]| == 1 && house[n][0].compatible
  }

  /** `bundle` holds the only wheel of every reachable name, and nothing else. */
  ghost predicate IsSelection(house: Wheelhouse, roots: set<Name>, bundle: map<Name, Wheel>) {
    && (forall n :: n in bundle <==> Reachable(HouseGraph(house), roots, n))
    && (forall n :: n in bundle ==> Sole(house, n) && bundle[n] == house[n][0])
  }

  predicate PinsHold(bundle: map<Name, Wheel>, pins: seq<(Name, string)>, skipped: set<Name>, same: (string, string) -> bool) {
    forall k :: 0 <= k < |pins| && pins[k].0 !in skipped && pins[k].0 in bundle ==> same(bundle[pins[k].0].version, pins[k].1)
  }

  predicate NeedsMet(bundle: map<Name, Wheel>, needs: seq<Requirement>) {
    forall k :: 0 <= k < |needs| && needs[k].applies ==>
      needs[k].name in bundle && needs[k].admits(bundle[needs[k].name].version)
  }

  predicate SpecifiersHold(bundle: map<Name, Wheel>) {
    forall n :: n in bundle ==> NeedsMet(bundle, bundle[n].needs)
  }

  predicate SelectionHolds(bundle: map<Name, Wheel>, policy: Policy) {
    && PinsHold(bundle, policy.directPins, BUILD_TOOLS, policy.sameVersion)
    && PinsHold(bundle, policy.resolvedPins, {}, policy.sameVersion)
    && SpecifiersHold(bundle)
  }

  /** The verifier's demand: exactly the names reachable from the expected direct ones,
      with all specifiers and pins met. */
  ghost predicate Verified(bundle: map<Name, Wheel>, policy: Policy) {
    && (forall n :: n in bundle <==> Reachable(BundleGraph(bundle), Expected(policy), n))
    && SpecifiersHold(bundle)
    && PinsHold(bundle, policy.resolvedPins, {}, policy.sameVersion)
  }

  // The demands, written out

  /** The direct names: every directly pinned name but the build tools and, when wheels
      are selected, but the products, which a bundle has to hold. */
  lemma DirectNamesExactly(policy: Policy, n: Name)
    ensures n in Roots(policy) <==>
              && (exists k :: 0 <= k < |policy.directPins| && policy.directPins[k].0 == n)
              && n != "setuptools" && n != "wheel" && n != "stm32-toolkit" && n != "stm32-monitor"
    ensures n in Expected(policy) <==>
              || n == "stm32-toolkit" || n == "stm32-monitor"
              || ((exists k :: 0 <= k < |policy.directPins| && policy.directPins[k].0 == n) && n != "setuptools" && n != "wheel")
  {
    if k :| 0 <= k < |policy.directPins| && policy.directPins[k].0 == n {
      assert policy.directPins[k] in policy.directPins;
    }
    assert n in PinNames(policy.directPins) <==> exists k :: 0 <= k < |policy.directPins| && policy.directPins[k].0 == n;
  }

  /** Every pinned name that a bundle holds has a version as pinned, and every applicable
      requirement of every wheel is met by the bundle. */
  lemma DemandsExactly(bundle: map<Name, Wheel>, policy: Policy)
    ensures Verified(bundle, policy) <==>
              && (forall n :: n in bundle <==> Reachable(BundleGraph(bundle), Expected(policy), n))
              && (forall n, k :: n in bundle && 0 <= k < |bundle[n].needs| && bundle[n].needs[k].applies ==>
                    bundle[n].needs[k].name in bundle
                    && bundle[n].needs[k].admits(bundle[bundle[n].needs[k].name].version))
              && (forall k :: 0 <= k < |policy.resolvedPins| && policy.resolvedPins[k].0 in bundle ==>
                    policy.sameVersion(bundle[policy.resolvedPins[k].0].version, policy.resolvedPins[k].1))
    ensures SelectionHolds(bundle, policy) <==>
              && (forall n, k :: n in bundle && 0 <= k < |bundle[n].needs| && bundle[n].needs[k].applies ==>
                    bundle[n].needs[k].name in bundle
                    && bundle[n].needs[k].admits(bundle[bundle[n].needs[k].name].version))
              && (forall k :: 0 <= k < |policy.resolvedPins| && policy.resolvedPins[k].0 in bundle ==>
                    policy.sameVersion(bundle[policy.resolvedPins[k].0].version, policy.resolvedPins[k].1))
              && (forall k :: 0 <= k < |policy.directPins| && policy.directPins[k].0 != "setuptools"
                              && policy.directPins[k].0 != "wheel" && policy.directPins[k].0 in bundle ==>
                    policy.sameVersion(bundle[policy.directPins[k].0].version, policy.directPins[k].1))
  {
    hide Reachable, BundleGraph, Expected;
    SpecifiersExactly(bundle);
    hide SpecifiersHold, NeedsMet;
  }

  lemma SpecifiersExactly(bundle: map<Name, Wheel>)
    ensures SpecifiersHold(bundle) <==>
              forall n, k :: n in bundle && 0 <= k < |bundle[n].needs| && bundle[n].needs[k].applies ==>
                bundle[n].needs[k].name in bundle && bundle[n].needs[k].admits(bundle[bundle[n].needs[k].name].version)
  {
  }

  /** What a wheel asks for in the graphs that are followed. */
  lemma EdgesExactly(house: Wheelhouse, bundle: map<Name, Wheel>, n: Name, d: Name)
    ensures n in BundleGraph(bundle) <==> n in bundle
    ensures n in bundle ==> (d in BundleGraph(bundle)[n] <==>
              exists k :: 0 <= k < |bundle[n].needs| && bundle[n].needs[k].applies && bundle[n].needs[k].name == d)
    ensures n in house && Sole(house, n) ==> n in HouseGraph(house) && (d in HouseGraph(house)[n] <==>
              exists k :: 0 <= k < |house[n][0].needs| && house[n][0].needs[k].applies && house[n][0].needs[k].name == d)
  {
    if n in house {
      CompatibleAll(house[n]);
    }
  }

  // The selection worklist

  /** Every name that could ever be asked for. */
  function Universe(g: Graph, roots: set<Name>): set<Name> {
    roots + (set n, d | n in g && d in g[n] :: d)
  }

  /** Everything a name asks for is selected. */
  predicate DoneWith(g: Graph, selected: set<Name>, n: Name) {
    n in g && g[n] <= selected
  }

  /** Selected names are reachable; those no longer pending are done. */
  ghost predicate Growing(g: Graph, roots: set<Name>, selected: set<Name>, pending: seq<Name>) {
    && roots <= selected <= Universe(g, roots)
    && (forall n :: n in selected ==> Reachable(g, roots, n))
    && (forall n :: n in pending ==> n in selected)
    && (forall n :: n in selected && n !in pending ==> DoneWith(g, selected, n))
  }

  /** The names a selection has to hold, in any order of the roots; `None` when some
      reachable name has no single compatible wheel. */
  method CloseNames(house: Wheelhouse, roots: set<Name>, start: seq<Name>) returns (r: Option<set<Name>>)
    requires forall n :: n in start <==> n in roots
    ensures r.Some? ==> forall n :: n in r.value <==> Reachable(HouseGraph(house), roots, n)
    ensures r.Some? ==> forall n :: n in r.value ==> n in HouseGraph(house)
    ensures r.None? ==> exists n :: Reachable(HouseGraph(house), roots, n) && n !in HouseGraph(house)
  {
    ghost var g := HouseGraph(house);
    var selected, pending := roots, start;
    StartGrowing(g, roots, start);
    while pending != []
      invariant Growing(g, roots, selected, pending)
      decreases |Universe(g, roots) - selected|, |pending|
    {
      hide Growing, Universe, Reachable;
      var name := pending[|pending| - 1];
      var candidates := if name in house then house[name] else [];
      var compatible := Compatible(candidates);
      if |compatible| != 1 {
        PendingReachable(g, roots, selected, pending);
        return None;
      }
      ghost var before := selected;
      selected, pending := Follow(g, roots, selected, pending, compatible[0].needs);
      LessToDo(g, roots, before, selected, pending);
    }
    EndGrowing(g, roots, selected);
    return Some(selected);
  }

  lemma StartGrowing(g: Graph, roots: set<Name>, start: seq<Name>)
    requires forall n :: n in start <==> n in roots
    ensures Growing(g, roots, roots, start)
  {
    forall n | n in roots
      ensures Reachable(g, roots, n)
    {
      RootIsReachable(g, roots, n);
    }
  }

  lemma PendingReachable(g: Graph, roots: set<Name>, selected: set<Name>, pending: seq<Name>)
    requires Growing(g, roots, selected, pending) && pending != []
    ensures Reachable(g, roots, pending[|pending| - 1])
  {
    assert pending[|pending| - 1] in pending;
  }

  lemma LessToDo(g: Graph, roots: set<Name>, before: set<Name>, after: set<Name>, pending: seq<Name>)
    requires before <= after && Growing(g, roots, after, pending)
    ensures before == after || |Universe(g, roots) - after| < |Universe(g, roots) - before|
  {
    hide Universe, Reachable;
    if before != after {
      var u := Universe(g, roots);
      var d :| d in after && d !in before;
      assert u - after <= (u - before) - {d};
      SubsetSize(u - after, (u - before) - {d});
    }
  }

  lemma SubsetSize<T>(a: set<T>, b: set<T>)
    requires a <= b
    ensures |a| <= |b|
  {
    assert b == a + (b - a);
  }

  lemma EndGrowing(g: Graph, roots: set<Name>, selected: set<Name>)
    requires Growing(g, roots, selected, [])
    ensures forall n :: n in selected <==> Reachable(g, roots, n)
    ensures forall n :: n in selected ==> n in g
  {
    assert forall n :: n in selected ==> DoneWith(g, selected, n);
    assert Closed(g, selected);
    ClosureIsReachable(g, roots, selected);
  }

  lemma AsksFor(needs: seq<Requirement>, k: nat)
    requires k < |needs| && needs[k].applies
    ensures needs[k].name in Asked(needs)
  {
  }

  /** One requirement of the name that is followed. */
  method FollowOne(ghost g: Graph, ghost roots: set<Name>, selected: set<Name>, pending: seq<Name>, ghost name: Name,
                   need: Requirement)
    returns (selected': set<Name>, pending': seq<Name>)
    requires GrowingBut(g, roots, selected, pending, name) && name in g && (need.applies ==> need.name in g[name])
    ensures GrowingBut(g, roots, selected', pending', name)
    ensures selected <= selected' && (selected' == selected ==> pending' == pending)
    ensures need.applies ==> need.name in selected'
  {
    hide *;
    if need.applies && need.name !in selected {
      PushKeeps(g, roots, selected, pending, name, need.name);
      return selected + {need.name}, pending + [need.name];
    }
    return selected, pending;
  }

  /** Take the last pending name and follow its wheel's requirements. */
  method Follow(ghost g: Graph, ghost roots: set<Name>, selected: set<Name>, pending: seq<Name>, needs: seq<Requirement>)
    returns (selected': set<Name>, pending': seq<Name>)
    requires pending != [] && Growing(g, roots, selected, pending)
    requires var n := pending[|pending| - 1]; n in g && g[n] == Asked(needs)
    ensures Growing(g, roots, selected', pending')
    ensures selected <= selected' && (selected' == selected ==> |pending'| < |pending|)
  {
    hide *;
    ghost var name := pending[|pending| - 1];
    selected', pending' := selected, pending[..|pending| - 1];
    PopKeeps(g, roots, selected, pending);
    for k := 0 to |needs|
      invariant selected <= selected' && (selected' == selected ==> |pending'| < |pending|)
      invariant GrowingBut(g, roots, selected', pending', name)
      invariant forall j :: 0 <= j < k && needs[j].applies ==> needs[j].name in selected'
    {
      if needs[k].applies {
        AsksFor(needs, k);
      }
      selected', pending' := FollowOne(g, roots, selected', pending', name, needs[k]);
    }
    FollowedKeeps(g, roots, selected', pending', name, needs);
  }

  lemma FollowedKeeps(g: Graph, roots: set<Name>, selected: set<Name>, pending: seq<Name>, name: Name, needs: seq<Requirement>)
    requires GrowingBut(g, roots, selected, pending, name) && name in g && g[name] == Asked(needs)
    requires forall j :: 0 <= j < |needs| && needs[j].applies ==> needs[j].name in selected
    ensures Growing(g, roots, selected, pending)
  {
    hide Reachable, Universe;
    assert g[name] <= selected;
  }

  /** Growing, except that one name is still being followed. */
  ghost predicate GrowingBut(g: Graph, roots: set<Name>, selected: set<Name>, pending: seq<Name>, name: Name) {
    && roots <= selected <= Universe(g, roots) && name in selected
    && (forall n :: n in selected ==> Reachable(g, roots, n))
    && (forall n :: n in pending ==> n in selected)
    && (forall n :: n in selected && n !in pending && n != name ==> DoneWith(g, selected, n))
  }

  lemma PopKeeps(g: Graph, roots: set<Name>, selected: set<Name>, pending: seq<Name>)
    requires pending != [] && Growing(g, roots, selected, pending)
    ensures GrowingBut(g, roots, selected, pending[..|pending| - 1], pending[|pending| - 1])
  {
    hide Reachable, Universe, DoneWith;
    assert pending == pending[..|pending| - 1] + [pending[|pending| - 1]];
    assert pending[|pending| - 1] in pending;
  }

  lemma PushKeeps(g: Graph, roots: set<Name>, selected: set<Name>, pending: seq<Name>, name: Name, d: Name)
    requires GrowingBut(g, roots, selected, pending, name) && name in g && d in g[name]
    ensures GrowingBut(g, roots, selected + {d}, pending + [d], name)
  {
    StepIsReachable(g, roots, name, d);
    hide Reachable;
    assert d in Universe(g, roots);
  }

  // Selecting

  /** `_select_wheels`: a bundle is returned exactly when the reachable names have
      their only wheels and all pins and specifiers hold, whatever the order. */
  method SelectWheels(house: Wheelhouse, policy: Policy, start: seq<Name>) returns (r: Option<map<Name, Wheel>>)
    requires forall n :: n in start <==> n in Roots(policy)
    ensures r.Some? ==> IsSelection(house, Roots(policy), r.value) && SelectionHolds(r.value, policy)
    ensures r.None? ==> forall b :: IsSelection(house, Roots(policy), b) ==> !SelectionHolds(b, policy)
  {
    var names := CloseNames(house, Roots(policy), start);
    hide SelectionHolds, Reachable;
    if names.None? {
      NoSelection(house, Roots(policy));
      return None;
    }
    if n :| n in names.value && !Sole(house, n) {
      return None;
    }
    var bundle := map n | n in names.value :: house[n][0];
    OnlySelection(house, Roots(policy), bundle);
    return if SelectionHolds(bundle, policy) then Some(bundle) else None;
  }

  lemma {:induction false} CompatibleAll(ws: seq<Wheel>)
    ensures forall w :: w in Compatible(ws) ==> w in ws && w.compatible
    ensures |ws| == 1 && ws[0].compatible ==> Compatible(ws) == ws
  {
    if ws != [] {
      CompatibleAll(ws[1..]);
    }
  }

  lemma NoSelection(house: Wheelhouse, roots: set<Name>)
    requires exists n :: Reachable(HouseGraph(house), roots, n) && n !in HouseGraph(house)
    ensures forall b :: !IsSelection(house, roots, b)
  {
    hide Reachable;
    var n :| Reachable(HouseGraph(house), roots, n) && n !in HouseGraph(house);
    if n in house {
      CompatibleAll(house[n]);
    }
  }

  lemma OnlySelection(house: Wheelhouse, roots: set<Name>, bundle: map<Name, Wheel>)
    requires IsSelection(house, roots, bundle)
    ensures forall b :: IsSelection(house, roots, b) ==> b == bundle
  {
    hide Reachable;
    forall b | IsSelection(house, roots, b)
      ensures b == bundle
    {
      assert forall n :: n in b <==> n in bundle;
    }
  }

  // Verifying

  /** `_verify_dependency_closure`, from the direct names in any order. */
  method VerifyClosure(bundle: map<Name, Wheel>, policy: Policy, start: seq<Name>) returns (ok: bool)
    requires forall n :: n in start <==> n in Expected(policy)
    ensures ok <==> Verified(bundle, policy)
  {
    if bundle.Keys < Expected(policy) {
      MissingRoot(bundle, policy);
      return false;
    }
    var closure := CloseBundle(bundle, Expected(policy), start);
    hide Reachable, SpecifiersHold, PinsHold;
    if closure.None? || closure.value != bundle.Keys {
      return false;
    }
    return PinsHold(bundle, policy.resolvedPins, {}, policy.sameVersion);
  }

  lemma MissingRoot(bundle: map<Name, Wheel>, policy: Policy)
    requires bundle.Keys < Expected(policy)
    ensures !Verified(bundle, policy)
  {
    var n :| n in Expected(policy) && n !in bundle;
    RootIsReachable(BundleGraph(bundle), Expected(policy), n);
  }

  /** Checked names are reachable with their specifiers met; everything they ask for is
      checked or pending. */
  ghost predicate Walking(bundle: map<Name, Wheel>, roots: set<Name>, closure: set<Name>, pending: seq<Name>) {
    && closure <= bundle.Keys
    && (forall n :: n in roots ==> n in closure || n in pending)
    && (forall n :: n in closure || n in pending ==> Reachable(BundleGraph(bundle), roots, n))
    && (forall n :: n in closure ==> NeedsMet(bundle, bundle[n].needs))
    && (forall n, d :: n in closure && d in Asked(bundle[n].needs) ==> d in closure || d in pending)
  }

  /** The names reachable in a bundle, or refusal when one is missing or a reachable
      wheel's specifier is not met. */
  method CloseBundle(bundle: map<Name, Wheel>, ghost roots: set<Name>, start: seq<Name>) returns (r: Option<set<Name>>)
    requires forall n :: n in start <==> n in roots
    ensures r.Some? ==> forall n :: n in r.value <==> Reachable(BundleGraph(bundle), roots, n)
    ensures r.Some? ==> r.value <= bundle.Keys && forall n :: n in r.value ==> NeedsMet(bundle, bundle[n].needs)
    ensures r.None? ==> exists n :: Reachable(BundleGraph(bundle), roots, n)
                          && (n !in bundle || !NeedsMet(bundle, bundle[n].needs))
  {
    var closure: set<Name>, pending := {}, start;
    StartWalking(bundle, roots, start);
    while pending != []
      invariant Walking(bundle, roots, closure, pending)
      decreases |bundle.Keys - closure|, |pending|
    {
      hide Walking, Reachable, NeedsMet;
      var name := pending[|pending| - 1];
      PendingWalks(bundle, roots, closure, pending);
      if name in closure {
        SkipKeeps(bundle, roots, closure, pending);
        pending := pending[..|pending| - 1];
        continue;
      }
      if name !in bundle {
        return None;
      }
      var more := CheckNeeds(bundle, bundle[name].needs);
      if more.None? {
        return None;
      }
      VisitKeeps(bundle, roots, closure, pending, more.value);
      OneLess(bundle.Keys, closure, name);
      closure, pending := closure + {name}, pending[..|pending| - 1] + more.value;
    }
    EndWalking(bundle, roots, closure);
    return Some(closure);
  }

  lemma StartWalking(bundle: map<Name, Wheel>, roots: set<Name>, start: seq<Name>)
    requires forall n :: n in start <==> n in roots
    ensures Walking(bundle, roots, {}, start)
  {
    forall n | n in roots
      ensures Reachable(BundleGraph(bundle), roots, n)
    {
      RootIsReachable(BundleGraph(bundle), roots, n);
    }
  }

  lemma PendingWalks(bundle: map<Name, Wheel>, roots: set<Name>, closure: set<Name>, pending: seq<Name>)
    requires pending != [] && Walking(bundle, roots, closure, pending)
    ensures Reachable(BundleGraph(bundle), roots, pending[|pending| - 1]) && closure <= bundle.Keys
  {
    assert pending[|pending| - 1] in pending;
  }

  lemma OneLess(all: set<Name>, closure: set<Name>, n: Name)
    requires n in all && n !in closure
    ensures |all - (closure + {n})| < |all - closure|
  {
    assert all - (closure + {n}) == (all - closure) - {n};
  }

  lemma SkipKeeps(bundle: map<Name, Wheel>, roots: set<Name>, closure: set<Name>, pending: seq<Name>)
    requires pending != [] && Walking(bundle, roots, closure, pending) && pending[|pending| - 1] in closure
    ensures Walking(bundle, roots, closure, pending[..|pending| - 1])
  {
    hide Reachable, NeedsMet, Asked;
    assert pending == pending[..|pending| - 1] + [pending[|pending| - 1]];
  }

  lemma VisitKeeps(bundle: map<Name, Wheel>, roots: set<Name>, closure: set<Name>, pending: seq<Name>, more: seq<Name>)
    requires pending != [] && Walking(bundle, roots, closure, pending)
    requires var n := pending[|pending| - 1];
             n in bundle && NeedsMet(bundle, bundle[n].needs) && forall d :: d in more <==> d in Asked(bundle[n].needs)
    ensures Walking(bundle, roots, closure + {pending[|pending| - 1]}, pending[..|pending| - 1] + more)
  {
    var name := pending[|pending| - 1];
    var left := pending[..|pending| - 1] + more;
    PendingWalks(bundle, roots, closure, pending);
    forall d | d in more
      ensures Reachable(BundleGraph(bundle), roots, d)
    {
      StepIsReachable(BundleGraph(bundle), roots, name, d);
    }
    hide Reachable, NeedsMet, Asked;
    assert pending == pending[..|pending| - 1] + [name];
    assert forall d :: d in pending ==> d == name || d in left;
  }

  lemma EndWalking(bundle: map<Name, Wheel>, roots: set<Name>, closure: set<Name>)
    requires Walking(bundle, roots, closure, [])
    ensures forall n :: n in closure <==> Reachable(BundleGraph(bundle), roots, n)
    ensures closure <= bundle.Keys && forall n :: n in closure ==> NeedsMet(bundle, bundle[n].needs)
  {
    assert Closed(BundleGraph(bundle), closure);
    ClosureIsReachable(BundleGraph(bundle), roots, closure);
  }

  /** One wheel's applicable requirements: the names they ask for, unless one is not
      met by the bundle. */
  method CheckNeeds(bundle: map<Name, Wheel>, needs: seq<Requirement>) returns (more: Option<seq<Name>>)
    ensures more.Some? <==> NeedsMet(bundle, needs)
    ensures more.Some? ==> forall d :: d in more.value <==> d in Asked(needs)
  {
    var names: seq<Name> := [];
    var k := 0;
    while k < |needs|
      invariant 0 <= k <= |needs|
      invariant forall j :: 0 <= j < k && needs[j].applies ==>
                  needs[j].name in names && needs[j].name in bundle && needs[j].admits(bundle[needs[j].name].version)
      invariant forall d :: d in names ==> d in Asked(needs)
    {
      if needs[k].applies {
        if needs[k].name !in bundle || !needs[k].admits(bundle[needs[k].name].version) {
          return None;
        }
        names := names + [needs[k].name];
      }
      k := k + 1;
    }
    return Some(names);
  }

  // What is selected verifies

  /** A selection together with the product wheels, when their own requirements are met
      by it, passes the verifier. */
  lemma SelectionVerifies(house: Wheelhouse, policy: Policy, bundle: map<Name, Wheel>, products: map<Name, Wheel>)
    requires IsSelection(house, Roots(policy), bundle) && SelectionHolds(bundle, policy)
    requires products.Keys == PRODUCTS && bundle.Keys !! PRODUCTS
    requires forall n :: n in products ==> NeedsMet(bundle + products, products[n].needs)
    requires PinsHold(products, policy.resolvedPins, {}, policy.sameVersion)
    ensures Verified(bundle + products, policy)
  {
    var all := bundle + products;
    hide Reachable, SpecifiersHold, PinsHold, IsSelection, Closed, BundleGraph, HouseGraph, NeedsMet, Roots, Expected;
    SelectionNeeds(bundle, products);
    AllReachable(house, policy, bundle, products);
    NeedsClose(all);
    RootsSelected(house, policy, bundle, products);
    PinsJoin(bundle, products, policy.resolvedPins, policy.sameVersion);
    ClosureIsReachable(BundleGraph(all), Expected(policy), all.Keys);
  }

  lemma PinsJoin(a: map<Name, Wheel>, b: map<Name, Wheel>, pins: seq<(Name, string)>, same: (string, string) -> bool)
    requires PinsHold(a, pins, {}, same) && PinsHold(b, pins, {}, same)
    ensures PinsHold(a + b, pins, {}, same)
  {
  }

  lemma NeedsClose(all: map<Name, Wheel>)
    requires SpecifiersHold(all)
    ensures Closed(BundleGraph(all), all.Keys)
  {
    forall n, d | n in all && d in Asked(all[n].needs)
      ensures d in all
    {
      assert NeedsMet(all, all[n].needs);
    }
  }

  lemma RootsSelected(house: Wheelhouse, policy: Policy, bundle: map<Name, Wheel>, products: map<Name, Wheel>)
    requires IsSelection(house, Roots(policy), bundle) && products.Keys == PRODUCTS
    ensures Expected(policy) <= (bundle + products).Keys
  {
    forall n | n in Expected(policy)
      ensures n in bundle + products
    {
      if n !in PRODUCTS {
        RootIsReachable(HouseGraph(house), Roots(policy), n);
      }
    }
  }

  lemma SelectionNeeds(bundle: map<Name, Wheel>, products: map<Name, Wheel>)
    requires SpecifiersHold(bundle) && bundle.Keys !! products.Keys
    requires forall n :: n in products ==> NeedsMet(bundle + products, products[n].needs)
    ensures SpecifiersHold(bundle + products)
  {
    var all := bundle + products;
    forall n | n in all
      ensures NeedsMet(all, all[n].needs)
    {
      if n in bundle {
        assert NeedsMet(bundle, bundle[n].needs);
      }
    }
  }

  lemma AllReachable(house: Wheelhouse, policy: Policy, bundle: map<Name, Wheel>, products: map<Name, Wheel>)
    requires IsSelection(house, Roots(policy), bundle) && products.Keys == PRODUCTS && bundle.Keys !! PRODUCTS
    ensures forall n :: n in bundle + products ==> Reachable(BundleGraph(bundle + products), Expected(policy), n)
  {
    var all := bundle + products;
    var g, h := HouseGraph(house), BundleGraph(all);
    forall n | n in bundle
      ensures n in g && g[n] == h[n]
    {
      CompatibleAll(house[n]);
    }
    forall n | n in all
      ensures Reachable(h, Expected(policy), n)
    {
      if n in products {
        RootIsReachable(h, Expected(policy), n);
      } else {
        ReachableInBundle(g, h, Roots(policy), Expected(policy), n);
      }
    }
  }

  /** A path through one graph is a path through another that agrees on it. */
  lemma ReachableInBundle(g: Graph, h: Graph, a: set<Name>, b: set<Name>, n: Name)
    requires a <= b && Reachable(g, a, n)
    requires forall m :: Reachable(g, a, m) && m in g ==> m in h && g[m] == h[m]
    ensures Reachable(h, b, n)
  {
    var p :| PathTo(g, a, p, n);
    forall i | 0 <= i < |p| - 1
      ensures p[i] in h && p[i + 1] in h[p[i]]
    {
      assert PathTo(g, a, p[..i + 1], p[i]);
    }
    assert PathTo(h, b, p, n);
  }
}
