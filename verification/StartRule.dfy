/**
 Which services a sequential start-up can run, stated without any order: the least set that
 contains every startable service whose registered dependencies it contains.
 */
module StartRule {
  import opened AcyclicGraphs
  import opened ServiceEvents
  import opened StartOrder

  /** Running services have all their registered dependencies running. */
  ghost predicate DependencyClosed(g: Graph, running: set<Name>) {
    forall a, d :: a in running && Edge(g, a, d) ==> d in running
  }

  ghost predicate Supported(g: Graph, a: Name, t: set<Name>) {
    forall d :: Edge(g, a, d) ==> d in t
  }

  ghost predicate RuleClosed(g: Graph, startable: set<Name>, t: set<Name>) {
    forall a :: a in startable && Supported(g, a, t) ==> a in t
  }

  ghost predicate BelowAllClosed(g: Graph, startable: set<Name>, s: set<Name>) {
    forall t :: RuleClosed(g, startable, t) ==> s <= t
  }

  /** The least rule-closed set. */
  ghost predicate IsStartedSet(g: Graph, startable: set<Name>, s: set<Name>) {
    RuleClosed(g, startable, s) && BelowAllClosed(g, startable, s)
  }

  /** The outcome is determined by the graph and by which services can start. */
  lemma StartedSetUnique(g: Graph, startable: set<Name>, s: set<Name>, t: set<Name>)
    requires IsStartedSet(g, startable, s) && IsStartedSet(g, startable, t)
    ensures s == t
  {
    assert s <= t && t <= s;
  }

  /** What a service-by-service reading of the rule says: started if and only if startable and supported. */
  ghost predicate IsFixpoint(g: Graph, startable: set<Name>, f: set<Name>) {
    forall a :: a in f <==> a in startable && Supported(g, a, f)
  }

  lemma {:induction false} FixpointMemberStarted(g: Graph, startable: set<Name>, s: set<Name>, f: set<Name>, a: Name)
    requires Acyclic(g) && RuleClosed(g, startable, s) && IsFixpoint(g, startable, f) && a in f
    ensures a in s
    decreases ReachSet(g, a)
  {
    forall d | Edge(g, a, d) ensures d in s {
      ReachSetShrinks(g, a, d);
      FixpointMemberStarted(g, startable, s, f, d);
    }
  }

  /** On acyclic graphs the rule has only that one reading: every fixpoint is the started set. */
  lemma AcyclicStarted(g: Graph, startable: set<Name>, s: set<Name>, f: set<Name>)
    requires Acyclic(g) && IsStartedSet(g, startable, s) && IsFixpoint(g, startable, f)
    ensures f == s
  {
    assert RuleClosed(g, startable, f);
    forall a | a in f ensures a in s {
      FixpointMemberStarted(g, startable, s, f, a);
    }
  }

  lemma {:induction false} PathStaysInside(g: Graph, s: set<Name>, p: seq<Name>, k: nat)
    requires DependencyClosed(g, s) && IsPath(g, p) && p[0] in s && k < |p|
    ensures p[k] in s
  {
    if k != 0 {
      PathStaysInside(g, s, p, k - 1);
      assert Edge(g, p[k - 1], p[k]);
    }
  }

  lemma ReachesInside(g: Graph, s: set<Name>, a: Name, b: Name)
    requires DependencyClosed(g, s) && a in s && Reaches(g, a, b)
    ensures b in s
  {
    var p :| Joins(g, p, a, b);
    PathStaysInside(g, s, p, |p| - 1);
  }

  /** Why order[k] has not been started: a dependency is down, or waits for order[k] itself. */
  ghost predicate Blocked(g: Graph, running: set<Name>, a: Name) {
    exists d :: Edge(g, a, d) && (d !in running || Reaches(g, d, a))
  }

  /** What the first i rounds of a sequential start-up have established. */
  ghost predicate Progress(g: Graph, startable: set<Name>, order: seq<Name>, i: nat, running: set<Name>)
    requires i <= |order|
  {
    && IsStartOrder(g, order)
    && running <= startable && running <= Elements(order[..i])
    && DependencyClosed(g, running) && RunningAfterDependencies(g, order, running)
    && BelowAllClosed(g, startable, running)
    && forall k :: 0 <= k < i && order[k] in startable && order[k] !in running ==> Blocked(g, running, order[k])
  }

  /** Every running service comes after its registered dependencies. */
  ghost predicate RunningAfterDependencies(g: Graph, order: seq<Name>, running: set<Name>) {
    forall a, d :: a in running && Edge(g, a, d) ==> Precedes(order, d, a)
  }

  lemma ElementsGrow(order: seq<Name>, i: nat)
    requires i < |order|
    ensures Elements(order[..i + 1]) == Elements(order[..i]) + {order[i]}
  {
    assert order[..i + 1] == order[..i] + [order[i]];
    ElementsAppend(order[..i], order[i]);
  }

  lemma ProgressStarts(g: Graph, order: seq<Name>, startable: set<Name>)
    requires IsStartOrder(g, order)
    ensures Progress(g, startable, order, 0, {})
  {
  }

  lemma NotEarlier(order: seq<Name>, i: nat)
    requires Distinct(order) && i < |order|
    ensures forall k :: 0 <= k < i ==> order[i] !in order[..k]
    ensures order[i] !in Elements(order[..i])
  {
  }

  /** A round that starts its service. */
  lemma ProgressByStarting(g: Graph, startable: set<Name>, order: seq<Name>, i: nat, running: set<Name>)
    requires i < |order| && Progress(g, startable, order, i, running)
    requires order[i] in startable && Supported(g, order[i], running)
    ensures Progress(g, startable, order, i + 1, running + {order[i]})
  {
    var a := order[i];
    var after := running + {a};
    ElementsGrow(order, i);
    NotEarlier(order, i);
    forall d | Edge(g, a, d) ensures Precedes(order, d, a) {
      assert d in Elements(order[..i]);
      var j :| 0 <= j < |order[..i]| && order[..i][j] == d;
      assert order[j] == d && order[i] == a;
    }
    forall t | RuleClosed(g, startable, t) ensures after <= t {
      assert running <= t;
      assert Supported(g, a, t);
    }
    forall k | 0 <= k < i + 1 && order[k] in startable && order[k] !in after
      ensures Blocked(g, after, order[k])
    {
      assert Blocked(g, running, order[k]);
      StillBlocked(g, order, i, k, running);
    }
  }

  lemma StillBlocked(g: Graph, order: seq<Name>, i: nat, k: nat, running: set<Name>)
    requires k < i < |order| && IsStartOrder(g, order) && Blocked(g, running, order[k])
    ensures Blocked(g, running + {order[i]}, order[k])
  {
    var d :| Edge(g, order[k], d) && (d !in running || Reaches(g, d, order[k]));
    if d == order[i] {
      NotEarlier(order, i);
      assert PlacedWell(g, order, k);
      assert Reaches(g, d, order[k]);
    }
  }

  /** A round that leaves its service down. */
  lemma ProgressBySkipping(g: Graph, startable: set<Name>, order: seq<Name>, i: nat, running: set<Name>)
    requires i < |order| && Progress(g, startable, order, i, running)
    requires order[i] !in startable || !Supported(g, order[i], running)
    ensures Progress(g, startable, order, i + 1, running)
  {
    ElementsGrow(order, i);
    NotEarlier(order, i);
    if order[i] in startable {
      assert Blocked(g, running, order[i]);
    }
  }

  /** After the last round the running services are exactly the started set, cycles or not. */
  lemma ProgressEnds(g: Graph, startable: set<Name>, order: seq<Name>, i: nat, running: set<Name>)
    requires i == |order| && Progress(g, startable, order, i, running) && startable <= g.nodes
    ensures IsStartedSet(g, startable, running) && RunningAfterDependencies(g, order, running)
  {
    forall a | a in startable && Supported(g, a, running) ensures a in running {
      if a !in running {
        var k :| 0 <= k < |order| && order[k] == a;
        assert Blocked(g, running, a);
        var d :| Edge(g, a, d) && (d !in running || Reaches(g, d, a));
        ReachesInside(g, running, d, a);
      }
    }
  }

  /** Stopping the last running service in start order leaves the rest dependency-closed. */
  lemma StopLast(g: Graph, order: seq<Name>, k: nat, running: set<Name>)
    requires Distinct(order) && k < |order|
    requires DependencyClosed(g, running) && RunningAfterDependencies(g, order, running)
    requires forall j :: k < j < |order| ==> order[j] !in running
    ensures DependencyClosed(g, running - {order[k]})
  {
    forall a, d | a in running - {order[k]} && Edge(g, a, d) ensures d in running - {order[k]} {
      assert Precedes(order, d, a);
      var i, j :| 0 <= i < j < |order| && order[i] == d && order[j] == a;
    }
  }

  // ---------------------------------------------------------------------------
  // Along a run of announcements
  // ---------------------------------------------------------------------------

  ghost predicate ClosedAfter(g: Graph, st: States, log: Log) {
    DependencyClosed(g, RunningIn(Replay(st, log)))
  }

  /** Before the first and after every announcement the running services are closed under dependencies. */
  ghost predicate ClosedThroughout(g: Graph, st: States, log: Log) {
    ClosedAfter(g, st, log) && (log != [] ==> ClosedThroughout(g, st, log[..|log| - 1]))
  }

  lemma {:induction false} ClosedAfterEach(g: Graph, st: States, log: Log, k: nat)
    requires ClosedThroughout(g, st, log) && k <= |log|
    ensures ClosedAfter(g, st, log[..k])
  {
    if k == |log| {
      assert log[..k] == log;
    } else {
      ClosedAfterEach(g, st, log[..|log| - 1], k);
      assert log[..|log| - 1][..k] == log[..k];
    }
  }

  lemma {:induction false} ClosedConcat(g: Graph, st: States, a: Log, b: Log)
    requires ClosedThroughout(g, st, a) && ClosedThroughout(g, Replay(st, a), b)
    ensures ClosedThroughout(g, st, a + b)
    decreases |b|
  {
    if b == [] {
      assert a + b == a;
    } else {
      ClosedConcat(g, st, a, b[..|b| - 1]);
      ReplayConcat(st, a, b);
      assert (a + b)[..|a + b| - 1] == a + b[..|b| - 1];
    }
  }

  lemma ClosedThroughoutTwo(g: Graph, st: States, d: Event, e: Event)
    requires ClosedAfter(g, st, []) && ClosedAfter(g, st, [d]) && ClosedAfter(g, st, [d, e])
    ensures ClosedThroughout(g, st, [d, e])
  {
    assert [d][..0] == [] && [d, e][..1] == [d];
    assert ClosedThroughout(g, st, [d]);
  }
}
