/**
 Dependency graphs without cycles: what a service reaches shrinks along every edge.
 */
module AcyclicGraphs {
  import opened StartOrder

  ghost predicate Acyclic(g: Graph) {
    forall a :: !Reaches(g, a, a)
  }

  ghost function ReachSet(g: Graph, a: Name): set<Name> {
    set d | d in g.nodes && Reaches(g, a, d)
  }

  /** h has fewer services than g, and the same declarations. */
  ghost predicate Within(h: Graph, g: Graph) {
    h.nodes <= g.nodes && h.deps == g.deps
  }

  lemma ReachesWithin(h: Graph, g: Graph, a: Name, b: Name)
    requires Within(h, g) && Reaches(h, a, b)
    ensures Reaches(g, a, b)
  {
    var p :| Joins(h, p, a, b);
    forall i | 0 <= i < |p| - 1 ensures Edge(g, p[i], p[i + 1]) {
      assert Edge(h, p[i], p[i + 1]);
    }
    assert Joins(g, p, a, b);
  }

  /** No cycle can be reached from a. */
  ghost predicate AcyclicFrom(g: Graph, a: Name) {
    !Reaches(g, a, a) && forall x :: Reaches(g, a, x) ==> !Reaches(g, x, x)
  }

  lemma AcyclicFromEdge(g: Graph, a: Name, d: Name)
    requires AcyclicFrom(g, a) && Edge(g, a, d)
    ensures AcyclicFrom(g, d)
  {
    EdgeReaches(g, a, d);
    forall x | Reaches(g, d, x) ensures !Reaches(g, x, x) {
      EdgeThenReaches(g, a, d, x);
    }
  }

  /** One step along an edge shrinks what is reached. */
  lemma ReachSetShrinks(g: Graph, a: Name, d: Name)
    requires AcyclicFrom(g, a) && Edge(g, a, d)
    ensures ReachSet(g, d) + {d} <= ReachSet(g, a)
    ensures ReachSet(g, d) < ReachSet(g, a)
  {
    EdgeReaches(g, a, d);
    forall x | x in ReachSet(g, d) ensures x in ReachSet(g, a) {
      EdgeThenReaches(g, a, d, x);
    }
    assert d !in ReachSet(g, d);
  }

  lemma ReachSetMonotone(h: Graph, g: Graph, a: Name)
    requires Within(h, g)
    ensures ReachSet(h, a) <= ReachSet(g, a)
  {
    forall x | x in ReachSet(h, a) ensures x in ReachSet(g, a) {
      ReachesWithin(h, g, a, x);
    }
  }
}
