/** Names reachable through requirements. */
module DependencyGraph {
  /** A normalized distribution name. */
  type Name = string

  /** For every known distribution, the names its applicable requirements ask for. */
  type Graph = map<Name, set<Name>>

  ghost predicate IsPath(g: Graph, roots: set<Name>, p: seq<Name>) {
    && p != [] && p[0] in roots
    && forall i :: 0 <= i < |p| - 1 ==> p[i] in g && p[i + 1] in g[p[i]]
  }

  ghost predicate PathTo(g: Graph, roots: set<Name>, p: seq<Name>, n: Name) {
    IsPath(g, roots, p) && p[|p| - 1] == n
  }

  ghost predicate Reachable(g: Graph, roots: set<Name>, n: Name) {
    exists p :: PathTo(g, roots, p, n)
  }

  predicate Closed(g: Graph, s: set<Name>) {
    forall n, d :: n in s && n in g && d in g[n] ==> d in s
  }

  lemma RootIsReachable(g: Graph, roots: set<Name>, n: Name)
    requires n in roots
    ensures Reachable(g, roots, n)
  {
    assert PathTo(g, roots, [n], n);
  }

  lemma StepIsReachable(g: Graph, roots: set<Name>, n: Name, d: Name)
    requires Reachable(g, roots, n) && n in g && d in g[n]
    ensures Reachable(g, roots, d)
  {
    var p :| PathTo(g, roots, p, n);
    var q := p + [d];
    forall i | 0 <= i < |q| - 1
      ensures q[i] in g && q[i + 1] in g[q[i]]
    {
      assert q[i] == p[i];
    }
    assert PathTo(g, roots, q, d);
  }

  /** The reachable names are in every closed set that holds the roots. */
  lemma {:induction false} ReachableIsLeast(g: Graph, roots: set<Name>, s: set<Name>, p: seq<Name>)
    requires roots <= s && Closed(g, s) && IsPath(g, roots, p)
    ensures p[|p| - 1] in s
    decreases |p|
  {
    if |p| > 1 {
      var front := p[..|p| - 1];
      assert forall i :: 0 <= i < |front| ==> front[i] == p[i];
      ReachableIsLeast(g, roots, s, front);
    }
  }

  /** A closed set of reachable names with all roots is the set of reachable names. */
  lemma ClosureIsReachable(g: Graph, roots: set<Name>, s: set<Name>)
    requires roots <= s && Closed(g, s) && forall n :: n in s ==> Reachable(g, roots, n)
    ensures forall n :: n in s <==> Reachable(g, roots, n)
  {
    forall n | Reachable(g, roots, n)
      ensures n in s
    {
      var p :| PathTo(g, roots, p, n);
      ReachableIsLeast(g, roots, s, p);
    }
  }
}
