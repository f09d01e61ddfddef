/**
 The depth-first start order that both service managers compute
 (core/lifecycle/manager.js and core/autonomous/manager.js).
 */
module StartOrder {
  type Name = string

  /** The registered services and what each of them declares as dependencies. */
  datatype Graph = Graph(nodes: set<Name>, deps: map<Name, seq<Name>>)

  function DepsOf(g: Graph, a: Name): seq<Name> {
    if a in g.deps then g.deps[a] else []
  }

  /** a depends on d, and d is registered. */
  predicate Edge(g: Graph, a: Name, d: Name) {
    d in DepsOf(g, a) && d in g.nodes
  }

  ghost predicate IsPath(g: Graph, p: seq<Name>) {
    |p| >= 2 && forall i :: 0 <= i < |p| - 1 ==> Edge(g, p[i], p[i + 1])
  }

  ghost predicate Joins(g: Graph, p: seq<Name>, a: Name, b: Name) {
    IsPath(g, p) && p[0] == a && p[|p| - 1] == b
  }

  /** One or more edges lead from a to b. */
  ghost predicate Reaches(g: Graph, a: Name, b: Name) {
    exists p :: Joins(g, p, a, b)
  }

  lemma EdgeReaches(g: Graph, a: Name, d: Name)
    requires Edge(g, a, d)
    ensures Reaches(g, a, d)
  {
    assert Joins(g, [a, d], a, d);
  }

  lemma ReachesEdge(g: Graph, a: Name, b: Name, d: Name)
    requires Reaches(g, a, b) && Edge(g, b, d)
    ensures Reaches(g, a, d)
  {
    var p :| Joins(g, p, a, b);
    assert Joins(g, p + [d], a, d);
  }

  lemma EdgeThenReaches(g: Graph, a: Name, b: Name, d: Name)
    requires Edge(g, a, b) && Reaches(g, b, d)
    ensures Reaches(g, a, d)
  {
    var p :| Joins(g, p, b, d);
    var q := [a] + p;
    forall i | 0 <= i < |q| - 1 ensures Edge(g, q[i], q[i + 1]) {
      if i > 0 {
        assert q[i] == p[i - 1] && q[i + 1] == p[i];
      }
    }
    assert Joins(g, q, a, d);
  }

  /** a is b, or leads to it. */
  ghost predicate Leads(g: Graph, a: Name, b: Name) {
    a == b || Reaches(g, a, b)
  }

  lemma EdgeThenLeads(g: Graph, a: Name, d: Name, b: Name)
    requires Edge(g, a, d) && Leads(g, d, b)
    ensures Reaches(g, a, b)
  {
    if d == b {
      EdgeReaches(g, a, d);
    } else {
      EdgeThenReaches(g, a, d, b);
    }
  }

  predicate Distinct(s: seq<Name>) {
    forall i, j :: 0 <= i < j < |s| ==> s[i] != s[j]
  }

  function Elements(s: seq<Name>): set<Name> {
    set i | 0 <= i < |s| :: s[i]
  }

  lemma ElementsAppend(s: seq<Name>, a: Name)
    ensures Elements(s + [a]) == Elements(s) + {a}
  {
    var t := s + [a];
    forall x | x in Elements(s) + {a} ensures x in Elements(t) {
      if x in Elements(s) {
        var i :| 0 <= i < |s| && s[i] == x;
        assert t[i] == x;
      } else {
        assert t[|s|] == x;
      }
    }
  }

  /** d comes before a. */
  ghost predicate Precedes(order: seq<Name>, d: Name, a: Name) {
    exists i, j :: 0 <= i < j < |order| && order[i] == d && order[j] == a
  }

  /** Every registered dependency of the i-th service comes before it, or leads back to it. */
  ghost predicate PlacedWell(g: Graph, order: seq<Name>, i: nat)
    requires i < |order|
  {
    forall d :: Edge(g, order[i], d) ==> d in order[..i] || Reaches(g, d, order[i])
  }

  ghost predicate DependenciesFirst(g: Graph, order: seq<Name>) {
    forall i :: 0 <= i < |order| ==> PlacedWell(g, order, i)
  }

  /** A duplicate-free list of exactly the registered services, dependencies first. */
  ghost predicate IsStartOrder(g: Graph, order: seq<Name>) {
    Distinct(order) && Elements(order) == g.nodes && DependenciesFirst(g, order)
  }

  // ---------------------------------------------------------------------------
  // The traversal
  // ---------------------------------------------------------------------------

  /** Between calls of visit: what is placed is placed well, and was entered before. */
  ghost predicate Traversing(g: Graph, visited: set<Name>, order: seq<Name>) {
    && Distinct(order) && Elements(order) <= visited <= g.nodes && DependenciesFirst(g, order)
  }

  function Open(visited: set<Name>, order: seq<Name>): set<Name> {
    visited - Elements(order)
  }

  lemma PlaceLast(g: Graph, order: seq<Name>, a: Name)
    requires DependenciesFirst(g, order) && Distinct(order) && a !in Elements(order)
    requires forall d :: Edge(g, a, d) ==> d in order || Reaches(g, d, a)
    ensures DependenciesFirst(g, order + [a]) && Distinct(order + [a])
  {
    var t := order + [a];
    forall i | 0 <= i < |t| ensures PlacedWell(g, t, i) {
      if i < |order| {
        assert PlacedWell(g, order, i);
        assert t[..i] == order[..i];
      } else {
        assert t[..i] == order;
      }
    }
  }

  /** What is placed at p came in with a root that is not after the service placed at q, itself a root. */
  ghost predicate Prompt(g: Graph, roots: seq<Name>, order: seq<Name>, p: nat, q: nat)
    requires p < |order| && q < |order|
  {
    forall k :: 0 <= k < |roots| && roots[k] == order[q] ==> LedBy(g, roots, k + 1, order[p])
  }

  /** One of the first n roots leads to b. */
  ghost predicate LedBy(g: Graph, roots: seq<Name>, n: nat, b: Name) {
    exists r :: 0 <= r < n && r < |roots| && Leads(g, roots[r], b)
  }

  /** Where b comes before a, some root at or before a leads to b. */
  ghost predicate RootsDecide(g: Graph, roots: seq<Name>, order: seq<Name>) {
    forall p, q :: 0 <= p < q < |order| ==> Prompt(g, roots, order, p, q)
  }

  lemma NextRoot(g: Graph, roots: seq<Name>, i: nat, before: seq<Name>, order: seq<Name>)
    requires i < |roots| && before <= order && RootsDecide(g, roots, before)
    requires forall k, q :: 0 <= k < i && |before| <= q < |order| ==> roots[k] != order[q]
    requires forall k :: 0 <= k < |before| ==> LedBy(g, roots, i, before[k])
    requires forall k :: |before| <= k < |order| ==> Leads(g, roots[i], order[k])
    ensures RootsDecide(g, roots, order)
    ensures forall k :: 0 <= k < |order| ==> LedBy(g, roots, i + 1, order[k])
  {
    forall k | 0 <= k < |order| ensures LedBy(g, roots, i + 1, order[k]) {
      if k < |before| {
        assert LedBy(g, roots, i, before[k]);
      }
    }
    forall p, q | 0 <= p < q < |order| ensures Prompt(g, roots, order, p, q) {
      if q < |before| {
        assert Prompt(g, roots, before, p, q);
      } else {
        assert LedBy(g, roots, i + 1, order[p]);
      }
    }
  }

  /** After a visit of root k: what was placed before came in with earlier roots, then its dependencies decide. */
  ghost predicate VisitedAt(g: Graph, roots: seq<Name>, order: seq<Name>, k: nat, from: nat, to: nat)
    requires k < |roots|
  {
    && from <= to < |order| && order[to] == roots[k]
    && (forall p :: 0 <= p < from ==> LedBy(g, roots, k, order[p]))
    && RootsDecide(g, DepsOf(g, roots[k]), order[from..to])
  }

  /** Unless an earlier root leads to root k, what it needs is placed dependency by dependency, and then itself. */
  ghost predicate DependenciesDecide(g: Graph, roots: seq<Name>, order: seq<Name>, k: nat)
    requires k < |roots|
  {
    LedBy(g, roots, k, roots[k]) || exists from: nat, to: nat :: VisitedAt(g, roots, order, k, from, to)
  }

  lemma StillDecide(g: Graph, roots: seq<Name>, before: seq<Name>, order: seq<Name>, k: nat)
    requires k < |roots| && before <= order && DependenciesDecide(g, roots, before, k)
    ensures DependenciesDecide(g, roots, order, k)
  {
    if !LedBy(g, roots, k, roots[k]) {
      var from: nat, to: nat :| VisitedAt(g, roots, before, k, from, to);
      assert before[from..to] == order[from..to];
      assert VisitedAt(g, roots, order, k, from, to);
    }
  }

  /** A visit places nothing that was entered before it. */
  lemma NothingTwice(g: Graph, visited0: set<Name>, order0: seq<Name>, visited: set<Name>, order: seq<Name>)
    requires Traversing(g, visited, order) && order0 <= order
    requires visited0 <= visited && Open(visited, order) == Open(visited0, order0)
    ensures forall k :: |order0| <= k < |order| ==> order[k] in g.nodes && order[k] !in visited0
  {
    forall k | |order0| <= k < |order| ensures order[k] in g.nodes && order[k] !in visited0 {
      assert order[k] in Elements(order);
      forall j | 0 <= j < |order0| ensures order0[j] != order[k] {
        assert order[j] == order0[j];
      }
      assert order[k] !in Open(visited, order);
    }
  }

  method Visit(g: Graph, name: Name, visited0: set<Name>, order0: seq<Name>)
    returns (visited: set<Name>, order: seq<Name>)
    requires name in g.nodes
    requires Traversing(g, visited0, order0)
    requires forall a :: a in Open(visited0, order0) ==> Reaches(g, a, name)
    ensures Traversing(g, visited, order) && order0 <= order
    ensures visited0 + {name} <= visited
    ensures Open(visited, order) == Open(visited0, order0)
    ensures forall k :: |order0| <= k < |order| ==> Leads(g, name, order[k])
    ensures name in visited0 ==> order == order0
    ensures name !in visited0 ==> |order0| < |order| && order[|order| - 1] == name
                                  && RootsDecide(g, DepsOf(g, name), order[|order0|..|order| - 1])
    decreases g.nodes - visited0
  {
    visited, order := visited0, order0;
    if name in visited {
      return;
    }
    visited := visited + {name};
    var deps := DepsOf(g, name);
    var i := 0;
    while i < |deps|
      invariant 0 <= i <= |deps|
      invariant Traversing(g, visited, order) && order0 <= order
      invariant visited0 + {name} <= visited
      invariant Open(visited, order) == Open(visited0, order0) + {name}
      invariant forall k :: 0 <= k < i && deps[k] in g.nodes ==> deps[k] in visited
      invariant forall k :: |order0| <= k < |order| ==> Reaches(g, name, order[k])
      invariant RootsDecide(g, deps, order[|order0|..])
      invariant forall k :: 0 <= k < |order| - |order0| ==> LedBy(g, deps, i, order[|order0|..][k])
    {
      var dep := deps[i];
      if dep in g.nodes {
        forall a | a in Open(visited, order) ensures Reaches(g, a, dep) {
          if a == name {
            EdgeReaches(g, name, dep);
          } else {
            ReachesEdge(g, a, name, dep);
          }
        }
        ghost var entered, before := visited, order;
        visited, order := Visit(g, dep, visited, order);
        forall k | |before| <= k < |order| ensures Reaches(g, name, order[k]) {
          EdgeThenLeads(g, name, dep, order[k]);
        }
        NothingTwice(g, entered, before, visited, order);
        NextRoot(g, deps, i, before[|order0|..], order[|order0|..]);
      }
      i := i + 1;
    }
    forall d | Edge(g, name, d) ensures d in order || Reaches(g, d, name) {
      assert d in visited;
      if d !in Elements(order) {
        assert d in Open(visited, order);
        if d == name {
          EdgeReaches(g, name, name);
        }
      }
    }
    assert (order + [name])[|order0|..|order|] == order[|order0|..];
    PlaceLast(g, order, name);
    ElementsAppend(order, name);
    order := order + [name];
  }

  lemma NextDecides(g: Graph, roots: seq<Name>, i: nat, entered: set<Name>, before: seq<Name>, order: seq<Name>)
    requires i < |roots| && before <= order && entered == Elements(before)
    requires forall k :: 0 <= k < i ==> DependenciesDecide(g, roots, before, k)
    requires forall k :: 0 <= k < |before| ==> LedBy(g, roots, i, before[k])
    requires roots[i] !in entered ==> |before| < |order| && order[|order| - 1] == roots[i]
                                      && RootsDecide(g, DepsOf(g, roots[i]), order[|before|..|order| - 1])
    ensures forall k :: 0 <= k < i + 1 ==> DependenciesDecide(g, roots, order, k)
  {
    forall k | 0 <= k < i ensures DependenciesDecide(g, roots, order, k) {
      StillDecide(g, roots, before, order, k);
    }
    if roots[i] in entered {
      var k :| 0 <= k < |before| && before[k] == roots[i];
      assert LedBy(g, roots, i, before[k]);
    } else {
      assert VisitedAt(g, roots, order, i, |before|, |order| - 1);
    }
  }

  /** Visits every root in turn. */
  method ComputeOrder(g: Graph, roots: seq<Name>) returns (order: seq<Name>)
    requires Elements(roots) == g.nodes
    ensures IsStartOrder(g, order) && RootsDecide(g, roots, order)
    ensures forall k :: 0 <= k < |roots| ==> DependenciesDecide(g, roots, order, k)
  {
    var visited: set<Name> := {};
    order := [];
    var i := 0;
    while i < |roots|
      invariant 0 <= i <= |roots|
      invariant Traversing(g, visited, order) && Open(visited, order) == {}
      invariant forall k :: 0 <= k < i ==> roots[k] in visited
      invariant RootsDecide(g, roots, order)
      invariant forall k :: 0 <= k < |order| ==> LedBy(g, roots, i, order[k])
      invariant forall k :: 0 <= k < i ==> DependenciesDecide(g, roots, order, k)
    {
      assert roots[i] in Elements(roots);
      ghost var before := order;
      ghost var entered := visited;
      assert visited == Elements(order) by {
        assert visited == Elements(order) + Open(visited, order);
      }
      visited, order := Visit(g, roots[i], visited, order);
      NothingTwice(g, entered, before, visited, order);
      NextRoot(g, roots, i, before, order);
      NextDecides(g, roots, i, entered, before, order);
      i := i + 1;
    }
    assert g.nodes <= Elements(order) by {
      assert visited == Elements(order) + Open(visited, order);
    }
  }

  /** The promise of the order, edge by edge: where d does not lead back to a, d starts first. */
  lemma DependencyBefore(g: Graph, order: seq<Name>, a: Name, d: Name)
    requires IsStartOrder(g, order) && a in g.nodes && Edge(g, a, d) && !Reaches(g, d, a)
    ensures exists i, j :: 0 <= i < j < |order| && order[i] == d && order[j] == a
  {
    var j :| 0 <= j < |order| && order[j] == a;
    assert PlacedWell(g, order, j);
    var i :| 0 <= i < |order[..j]| && order[..j][i] == d;
    assert order[i] == d && order[j] == a;
  }
}
