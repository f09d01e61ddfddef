/**
 AutonomousManager in core/autonomous/manager.js: registration, sequential start-up in
 dependency order, shut-down in reverse, and the transitive dependents of a service.
 */
module AutonomousManager {
  import opened PriorityOrder
  import opened ServiceEvents
  import opened ServiceLifecycle
  import opened StartOrder
  import opened StartRule
  import opened StartupRuns

  /** What registering `name` appends to the dependents of n: once for each mention of n. */
  function Mentions(dependencies: seq<Name>, n: Name, name: Name): seq<Name> {
    if dependencies == [] then []
    else Mentions(dependencies[..|dependencies| - 1], n, name)
         + if dependencies[|dependencies| - 1] == n then [name] else []
  }

  /** A service becomes a dependent of n exactly if it declares n. */
  lemma {:induction false} MentionsOnly(dependencies: seq<Name>, name: Name)
    ensures forall n, x :: x in Mentions(dependencies, n, name) <==> x == name && n in dependencies
  {
    if dependencies != [] {
      MentionsOnly(dependencies[..|dependencies| - 1], name);
    }
  }

  class AutonomousManager {
    const eventBus: EventBus
    var services: map<Name, Service>
    ghost var members: set<Service>  // the registered service objects
    var names: seq<Name>  // in registration order
    var dependencyGraph: map<Name, seq<Name>>
    var isRunning: bool
    var startupOrder: seq<Name>

    /** The service objects, each under its own name and on the manager's event bus. */
    ghost predicate Linked()
      reads `services, `members
    {
      forall n :: n in services ==>
        services[n] in members && services[n].name == n && services[n].eventBus == eventBus
    }

    ghost predicate Valid()
      reads `services, `members, `names, `dependencyGraph
    {
      && Linked()
      && dependencyGraph.Keys <= services.Keys
      && Elements(names) == services.Keys && Distinct(names)
    }

    ghost function G(): Graph
      reads `services, `dependencyGraph
    {
      Graph(services.Keys, dependencyGraph)
    }

    ghost function States(): (m: States)
      requires Linked()
      reads `services, `members, members`state
      ensures m.Keys == services.Keys
    {
      map n | n in services :: services[n].state
    }

    /** Who may start by itself, and whose hooks return. */
    ghost function ThePlan(): Plan
      reads `services
    {
      Plan(set n | n in services && services[n].autoStartPolicy != Never,
           set n | n in services && services[n].hooks.init,
           set n | n in services && services[n].hooks.start,
           set n | n in services && services[n].hooks.stop)
    }

    /** Holds from the empty manager on, through every registration. */
    ghost predicate DependentsRegistered()
      requires Linked()
      reads `services, `members, members`dependents
    {
      forall n, d :: n in services && d in services[n].dependents ==> d in services
    }

    constructor (eventBus: EventBus)
      ensures this.eventBus == eventBus
      ensures Valid() && services == map[] && !isRunning && DependentsRegistered()
    {
      this.eventBus := eventBus;
      services := map[];
      members := {};
      names := [];
      dependencyGraph := map[];
      isRunning := false;
      startupOrder := [];
    }

    /** ok is false where the source throws because the name is taken. */
    method Register(name: Name, dependencies: seq<Name>, hooks: Hooks, policy: AutoStartPolicy, priority: int)
      returns (ok: bool)
      requires Valid()
      modifies `services, `members, `names, `dependencyGraph, members`dependents, eventBus`log
      ensures Valid()
      ensures ok <==> name !in old(services)
      ensures !ok ==> unchanged(this) && unchanged(old(members)) && unchanged(eventBus)
      ensures ok ==> eventBus.log == old(eventBus.log) + [ServiceRegistered(name)]
      ensures ok ==> name in services && services == old(services)[name := services[name]] && fresh(services[name])
      ensures ok ==> dependencyGraph == if dependencies == [] then old(dependencyGraph)
                                        else old(dependencyGraph)[name := dependencies]
      ensures ok ==> services[name].state == Created && services[name].hooks == hooks
                     && services[name].autoStartPolicy == policy
      ensures ok ==> services[name].startupPriority == if priority == 0 then 100 else priority
      ensures ok ==> services[name].dependents == Mentions(dependencies, name, name)
      ensures ok ==> forall n :: n in old(services) ==>
                services[n].dependents == old(services[n].dependents) + Mentions(dependencies, n, name)
      ensures ok ==> names == old(names) + [name]
      ensures old(DependentsRegistered()) ==> DependentsRegistered()
    {
      if name in services {
        return false;
      }
      AddService(name, dependencies, hooks, policy, priority);
      AddDependent(name, dependencies);
      eventBus.Emit(ServiceRegistered(name));
      return true;
    }

    /** The new service object and the entries for it. */
    method AddService(name: Name, dependencies: seq<Name>, hooks: Hooks, policy: AutoStartPolicy, priority: int)
      requires Valid() && name !in services
      modifies `services, `members, `names, `dependencyGraph
      ensures Valid() && name in services && fresh(services[name])
      ensures services == old(services)[name := services[name]] && members == old(members) + {services[name]}
      ensures names == old(names) + [name]
      ensures dependencyGraph == if dependencies == [] then old(dependencyGraph)
                                 else old(dependencyGraph)[name := dependencies]
      ensures services[name].state == Created && services[name].dependents == []
      ensures services[name].hooks == hooks && services[name].autoStartPolicy == policy
      ensures services[name].startupPriority == if priority == 0 then 100 else priority
      ensures old(DependentsRegistered()) ==> DependentsRegistered()
    {
      var service := new Service(name, hooks, policy, priority, eventBus);
      services := services[name := service];
      members := members + {service};
      ElementsAppend(names, name);
      names := names + [name];
      if |dependencies| > 0 {
        dependencyGraph := dependencyGraph[name := dependencies];
      }
    }

    method AddDependent(name: Name, dependencies: seq<Name>)
      requires Linked() && name in services
      modifies members`dependents
      ensures old(DependentsRegistered()) ==> DependentsRegistered()
      ensures forall n :: n in services ==>
                services[n].dependents == old(services[n].dependents) + Mentions(dependencies, n, name)
    {
      var i := 0;
      while i < |dependencies|
        invariant 0 <= i <= |dependencies|
        invariant forall n :: n in services ==>
                    services[n].dependents == old(services[n].dependents) + Mentions(dependencies[..i], n, name)
      {
        var dep := dependencies[i];
        assert dependencies[..i + 1][..i] == dependencies[..i];
        if dep in services {
          services[dep].dependents := services[dep].dependents + [name];
        }
        i := i + 1;
      }
      assert dependencies[..i] == dependencies;
      MentionsOnly(dependencies, name);
    }

    /** The dependency check of _startService. */
    method DependenciesRunning(name: Name) returns (ok: bool)
      requires Linked() && name in services
      ensures ok <==> Supported(G(), name, RunningIn(States()))
    {
      ghost var g, running := G(), RunningIn(States());
      var deps := if name in dependencyGraph then dependencyGraph[name] else [];
      var i := 0;
      while i < |deps|
        invariant 0 <= i <= |deps|
        invariant Elements(deps[..i]) * g.nodes <= running
      {
        if deps[i] in services && !services[deps[i]].IsRunning() {
          assert Edge(g, name, deps[i]) && deps[i] !in running;
          return false;
        }
        assert deps[..i + 1] == deps[..i] + [deps[i]];
        ElementsAppend(deps[..i], deps[i]);
        i := i + 1;
      }
      assert deps[..i] == deps;
      assert forall d :: Edge(g, name, d) ==> d in Elements(deps) * g.nodes;
      return true;
    }

    /** _startService: policy, then dependencies, then the init and start hooks. */
    method StartService(name: Name) returns (result: StartResult, ghost a: Attempt)
      requires Linked()
      modifies members`state, eventBus`log
      ensures a == old(TryStart(G(), ThePlan(), States(), name)) && result == a.result
      ensures result == Skipped <==>
              name in services && (services[name].autoStartPolicy == Never
                                   || !Supported(G(), name, RunningIn(old(States()))))
      ensures result == Success <==>
              && name in services && services[name].autoStartPolicy != Never
              && Supported(G(), name, RunningIn(old(States()))) && old(States())[name] == Created
              && services[name].hooks.init && services[name].hooks.start
      ensures eventBus.log == old(eventBus.log) + a.log
      ensures States() == Replay(old(States()), a.log)
    {
      if name !in services {
        return Failed, Attempt(Failed, []);
      }
      if services[name].autoStartPolicy == Never {
        return Skipped, Attempt(Skipped, []);
      }
      var supported := DependenciesRunning(name);
      if !supported {
        return Skipped, Attempt(Skipped, []);
      }
      result, a := StartAllowed(name);
    }

    /** The end of _startService, for a service that may start now. */
    method StartAllowed(name: Name) returns (result: StartResult, ghost a: Attempt)
      requires Linked() && name in ThePlan().allowed && Supported(G(), name, RunningIn(States()))
      modifies members`state, eventBus`log
      ensures a == old(TryStart(G(), ThePlan(), States(), name)) && result == a.result
      ensures eventBus.log == old(eventBus.log) + a.log
      ensures States() == Replay(old(States()), a.log)
    {
      ghost var before := States();
      TryStartReplays(G(), ThePlan(), before, name);
      ghost var log;
      result, log := Launch(services[name]);
      a := Attempt(result, log);
      assert States() == before[name := services[name].state];
    }

    /** The two hooks; an error in either is reported as a failure. */
    method Launch(service: Service) returns (result: StartResult, ghost log: Log)
      requires service.eventBus == eventBus
      modifies service`state, eventBus`log
      ensures service.state == if old(service.state) != Created then old(service.state)
                               else if service.hooks.init && service.hooks.start then Running else Errored
      ensures result == if service.state == Running && old(service.state) == Created then Success else Failed
      ensures log == if old(service.state) != Created then []
                     else if !service.hooks.init then InitLog(service.name, Created, false)
                     else InitLog(service.name, Created, true) + StartLog(service.name, Ready, service.hooks.start)
      ensures eventBus.log == old(eventBus.log) + log
    {
      log := InitLog(service.name, service.state, service.hooks.init);
      var initialised := service.Init();
      if !initialised {
        return Failed, log;
      }
      log := log + StartLog(service.name, Ready, service.hooks.start);
      var started := service.Start();
      result := if started then Success else Failed;
    }

    ghost predicate ByPriority(s: seq<Name>)
      reads `services
    {
      && (forall i :: 0 <= i < |s| ==> s[i] in services)
      && (forall i, j :: 0 <= i < j < |s| ==> services[s[i]].startupPriority <= services[s[j]].startupPriority)
    }

    ghost function Priorities(): map<Name, int>
      reads `services
    {
      map n | n in services :: services[n].startupPriority
    }

    /** The registered names by start-up priority; equal priorities keep registration order. */
    method SortByPriority() returns (sorted: seq<Name>)
      requires Valid()
      ensures multiset(sorted) == multiset(names) && Elements(sorted) == services.Keys
      ensures ByPriority(sorted) && StablySorted(Priorities(), names, sorted)
      ensures forall p :: OfPriority(Priorities(), sorted, p) == OfPriority(Priorities(), names, p)
    {
      sorted := [];
      var i := 0;
      while i < |names|
        invariant 0 <= i <= |names|
        invariant multiset(sorted) == multiset(names[..i]) && ByPriority(sorted)
        invariant StablySorted(Priorities(), names, sorted)
        invariant forall p :: OfPriority(Priorities(), sorted, p) == OfPriority(Priorities(), names[..i], p)
      {
        assert names[i] in Elements(names);
        assert names[..i + 1] == names[..i] + [names[i]];
        OfPriorityAppends(Priorities(), names[..i], names[i]);
        EarlierNames(names, sorted, i);
        sorted := InsertByPriority(sorted, names[i]);
        i := i + 1;
      }
      assert names[..i] == names;
      SameMembers(sorted, names);
    }

    method InsertByPriority(sorted: seq<Name>, name: Name) returns (r: seq<Name>)
      requires ByPriority(sorted) && StablySorted(Priorities(), names, sorted) && name in services
      requires forall x :: x in sorted ==> Precedes(names, x, name)
      ensures StablySorted(Priorities(), names, r)
      ensures ByPriority(r) && multiset(r) == multiset(sorted) + multiset{name}
      ensures forall p :: OfPriority(Priorities(), r, p)
                       == OfPriority(Priorities(), sorted, p) + OfPriority(Priorities(), [name], p)
    {
      var p := |sorted|;
      while p > 0 && services[sorted[p - 1]].startupPriority > services[name].startupPriority
        invariant 0 <= p <= |sorted|
        invariant forall k :: p <= k < |sorted| ==>
                    services[sorted[k]].startupPriority > services[name].startupPriority
      {
        p := p - 1;
      }
      InsertedOnce(sorted, p, name);
      InsertedByPriority(Priorities(), sorted, p, name);
      InsertedStably(Priorities(), names, sorted, p, name);
      InsertedLast(Priorities(), sorted, p, name);
      r := sorted[..p] + [name] + sorted[p..];
    }

    /**
     Dependencies first; where none is in the way priority and then registration decide, and below a service the
     listing of its dependencies.
     */
    ghost predicate InOrder(order: seq<Name>)
      reads `services, `dependencyGraph, `names
    {
      InTurn(G(), Priorities(), names, order)
    }

    /** The order of the depth-first visit from the sorted names. */
    method CalculateStartupOrder() returns (order: seq<Name>)
      requires Valid()
      ensures InOrder(order)
    {
      var roots := SortByPriority();
      order := ComputeOrder(Graph(services.Keys, dependencyGraph), roots);
      OrderKeepsPriority(G(), Priorities(), names, roots, order);
    }

    /** `log` is what the services announce. */
    method StartAll() returns (report: StartReport, ghost log: Log)
      requires Valid()
      modifies `isRunning, `startupOrder, members`state, eventBus`log
      ensures Valid() && isRunning
      ensures old(isRunning) ==>
                && report == StartReport([], [], []) && startupOrder == old(startupOrder)
                && unchanged(old(members)) && unchanged(eventBus)
      ensures !old(isRunning) ==> InOrder(startupOrder)
      ensures !old(isRunning) ==>
                Startup(report, log, States())
                == Started(old(G()), old(ThePlan()), old(States()), startupOrder, |startupOrder|)
      ensures !old(isRunning) ==>
                eventBus.log == old(eventBus.log) + log + [CoreStarted(|report.started|, |report.failed|)]
    {
      if isRunning {
        return StartReport([], [], []), [];
      }
      report, log := StartAnyway();
    }

    method StartAnyway() returns (report: StartReport, ghost log: Log)
      requires Valid()
      modifies `isRunning, `startupOrder, members`state, eventBus`log
      ensures Valid() && isRunning && InOrder(startupOrder)
      ensures Startup(report, log, States())
           == Started(old(G()), old(ThePlan()), old(States()), startupOrder, |startupOrder|)
      ensures eventBus.log == old(eventBus.log) + log + [CoreStarted(|report.started|, |report.failed|)]
    {
      isRunning := true;
      report, log := StartAndAnnounce();
    }

    method StartAndAnnounce() returns (report: StartReport, ghost log: Log)
      requires Valid()
      modifies `startupOrder, members`state, eventBus`log
      ensures InOrder(startupOrder)
      ensures Startup(report, log, States())
           == Started(old(G()), old(ThePlan()), old(States()), startupOrder, |startupOrder|)
      ensures eventBus.log == old(eventBus.log) + log + [CoreStarted(|report.started|, |report.failed|)]
    {
      report, log := StartInOrder();
      Announce(CoreStarted(|report.started|, |report.failed|));
    }

    method Announce(e: Event)
      requires Linked()
      modifies eventBus`log
      ensures eventBus.log == old(eventBus.log) + [e] && States() == old(States())
    {
      ghost var before := States();
      eventBus.Emit(e);
      assert States() == before;
    }

    method SetOrder()
      requires Valid()
      modifies `startupOrder
      ensures InOrder(startupOrder)
      ensures G() == old(G()) && ThePlan() == old(ThePlan()) && States() == old(States())
    {
      startupOrder := CalculateStartupOrder();
    }

    /** Computes the order, then starts. */
    method StartInOrder() returns (report: StartReport, ghost log: Log)
      requires Valid()
      modifies `startupOrder, members`state, eventBus`log
      ensures InOrder(startupOrder)
      ensures Startup(report, log, States())
           == Started(old(G()), old(ThePlan()), old(States()), startupOrder, |startupOrder|)
      ensures eventBus.log == old(eventBus.log) + log
    {
      SetOrder();
      report, log := StartEach();
    }

    /** The sequential loop of startAll. */
    method StartEach() returns (report: StartReport, ghost log: Log)
      requires Linked()
      modifies members`state, eventBus`log
      ensures Startup(report, log, States())
           == Started(old(G()), old(ThePlan()), old(States()), startupOrder, |startupOrder|)
      ensures eventBus.log == old(eventBus.log) + log
    {
      ghost var g, plan, st, base := G(), ThePlan(), States(), eventBus.log;
      ghost var s := Startup(StartReport([], [], []), [], st);
      NothingStarted(g, plan, st, startupOrder);
      report := StartReport([], [], []);
      var i := 0;
      while i < |startupOrder|
        invariant 0 <= i <= |startupOrder| && G() == g && ThePlan() == plan
        invariant s == Started(g, plan, st, startupOrder, i)
        invariant report == s.report && States() == s.states && eventBus.log == base + s.log
      {
        report, s := StartNext(g, plan, st, base, i, report, s);
        i := i + 1;
      }
      log := s.log;
    }

    /** The body of that loop. */
    method StartNext(ghost g: Graph, ghost plan: Plan, ghost st: States, ghost base: Log, i: nat,
                     report0: StartReport, ghost before: Startup)
      returns (report: StartReport, ghost after: Startup)
      requires Linked() && G() == g && ThePlan() == plan
      requires i < |startupOrder| && before == Started(g, plan, st, startupOrder, i)
      requires report0 == before.report && States() == before.states && eventBus.log == base + before.log
      modifies members`state, eventBus`log
      ensures after == Started(g, plan, st, startupOrder, i + 1)
      ensures report == after.report && States() == after.states && eventBus.log == base + after.log
    {
      var result;
      ghost var a;
      result, a := StartService(startupOrder[i]);
      report := Record(report0, result, startupOrder[i]);
      after := Startup(report, before.log + a.log, States());
      StartRound(g, plan, st, startupOrder, i, before, a, States());
      Appended(base, before.log, a.log);
    }

    method StopAll() returns (report: StopReport)
      requires Valid()
      modifies `isRunning, members`state, eventBus`log
      ensures Valid() && !isRunning
      ensures !old(isRunning) ==>
                report == StopReport([], []) && unchanged(old(members)) && unchanged(eventBus)
      ensures old(isRunning) ==>
                var run := StopRun(ThePlan(), old(States()), startupOrder, 0);
                && report == run.report
                && eventBus.log == old(eventBus.log) + run.log + [CoreStopping(|report.stopped|)]
                && States() == Replay(old(States()), run.log)
    {
      if !isRunning {
        return StopReport([], []);
      }
      report := StopEach();
      isRunning := false;
      eventBus.Emit(CoreStopping(|report.stopped|));
    }

    /** The loop of stopAll, over the start order reversed. */
    method StopEach() returns (report: StopReport)
      requires Linked()
      modifies members`state, eventBus`log
      ensures var run := StopRun(ThePlan(), old(States()), startupOrder, 0);
              && report == run.report
              && eventBus.log == old(eventBus.log) + run.log
              && States() == Replay(old(States()), run.log)
    {
      ghost var plan, st := ThePlan(), States();
      report := StopReport([], []);
      var k := |startupOrder|;
      while k > 0
        invariant 0 <= k <= |startupOrder| && ThePlan() == plan
        invariant report == StopRun(plan, st, startupOrder, k).report
        invariant eventBus.log == old(eventBus.log) + StopRun(plan, st, startupOrder, k).log
        invariant States() == Replay(st, StopRun(plan, st, startupOrder, k).log)
      {
        k := k - 1;
        StopRunRound(plan, st, startupOrder, k);
        var name := startupOrder[k];
        if name in services && services[name].IsRunning() {
          var stopped := StopService(name);
          report := RecordStop(report, stopped, name);
        }
      }
    }

    /** One stop of that loop; false where the stop hook throws. */
    method StopService(name: Name) returns (stopped: bool)
      requires Linked() && name in services && services[name].state == Running
      modifies members`state, eventBus`log
      ensures stopped <==> name in ThePlan().stops
      ensures eventBus.log == old(eventBus.log) + StopLog(name, Running, stopped)
      ensures States() == Replay(old(States()), StopLog(name, Running, stopped))
    {
      StopLogReplays(States(), name, name in ThePlan().stops);
      stopped := services[name].Stop();
    }

    // -------------------------------------------------------------------------
    // Transitive dependents
    // -------------------------------------------------------------------------

    /** An edge leads from a service to each of its dependents. */
    ghost function DependentsGraph(): Graph
      requires Linked()
      reads `services, `members, members`dependents
    {
      Graph(services.Keys, map n | n in services :: services[n].dependents)
    }

    method GetAllDependents(name: Name, visited0: set<Name>) returns (result: seq<Name>, visited: set<Name>)
      requires Linked()
      requires DependentsRegistered()
      requires visited0 <= services.Keys
      ensures visited <= services.Keys
      ensures Gathered(DependentsGraph(), name, visited0, result, visited)
      ensures forall d :: Edge(DependentsGraph(), name, d) ==> d in visited
      decreases services.Keys - visited0
    {
      result, visited := [], visited0;
      if name !in services {
        return;
      }
      ghost var g := DependentsGraph();
      var dependents := services[name].dependents;
      var i := 0;
      while i < |dependents|
        invariant 0 <= i <= |dependents|
        invariant visited <= services.Keys
        invariant Gathered(g, name, visited0, result, visited)
        invariant forall k :: 0 <= k < i ==> dependents[k] in visited
      {
        var dependent := dependents[i];
        if dependent !in visited {
          assert Edge(g, name, dependent);
          var more, visited' := GetAllDependents(dependent, visited + {dependent});
          GatherMore(g, name, dependent, visited0, result, visited, more, visited');
          result, visited := result + [dependent] + more, visited';
        }
        i := i + 1;
      }
    }

    /** With nothing visited: exactly the services reached by dependents edges, each after one that leads to it. */
    method AllDependents(name: Name) returns (result: seq<Name>)
      requires Linked()
      requires DependentsRegistered()
      ensures Distinct(result) && Preorder(DependentsGraph(), name, result)
      ensures forall d :: d in result <==> Reaches(DependentsGraph(), name, d)
    {
      var visited;
      result, visited := GetAllDependents(name, {});
      ghost var g := DependentsGraph();
      forall d | Reaches(g, name, d) ensures d in result {
        FoundAll(g, name, Elements(result), d);
      }
    }
  }

  lemma ElementsConcat(s: seq<Name>, t: seq<Name>)
    ensures Elements(s + t) == Elements(s) + Elements(t)
  {
    var r := s + t;
    forall x | x in Elements(s) + Elements(t) ensures x in Elements(r) {
      if x in Elements(s) {
        var i :| 0 <= i < |s| && s[i] == x;
        assert r[i] == x;
      } else {
        var i :| 0 <= i < |t| && t[i] == x;
        assert r[|s| + i] == x;
      }
    }
  }

  /** The services found so far from a start: new ones, reached from it, with their own dependents visited. */
  ghost predicate Gathered(g: Graph, start: Name, visited0: set<Name>, result: seq<Name>, visited: set<Name>) {
    && visited == visited0 + Elements(result) && Elements(result) !! visited0 && Distinct(result)
    && (forall d :: d in Elements(result) ==> Reaches(g, start, d))
    && (forall a, d :: a in Elements(result) && Edge(g, a, d) ==> d in visited)
    && Preorder(g, start, result)
  }

  /** The i-th service is a dependent of the start or of one listed before it. */
  ghost predicate Follows(g: Graph, start: Name, result: seq<Name>, i: nat)
    requires i < |result|
  {
    Edge(g, start, result[i]) || exists j :: 0 <= j < i && Edge(g, result[j], result[i])
  }

  ghost predicate Preorder(g: Graph, start: Name, result: seq<Name>) {
    forall i :: 0 <= i < |result| ==> Follows(g, start, result, i)
  }

  lemma PreorderMore(g: Graph, start: Name, next: Name, result: seq<Name>, more: seq<Name>)
    requires Preorder(g, start, result) && Edge(g, start, next) && Preorder(g, next, more)
    ensures Preorder(g, start, result + [next] + more)
  {
    var all, n := result + [next] + more, |result|;
    forall i | 0 <= i < |all| ensures Follows(g, start, all, i) {
      if i < n {
        assert Follows(g, start, result, i);
        assert forall j :: 0 <= j <= i ==> all[j] == result[j];
      } else if i > n {
        assert Follows(g, next, more, i - n - 1) && all[n] == next;
        if j :| 0 <= j < i - n - 1 && Edge(g, more[j], more[i - n - 1]) {
          assert all[n + 1 + j] == more[j];
        }
      }
    }
  }

  lemma GatherMore(g: Graph, start: Name, next: Name, visited0: set<Name>, result: seq<Name>, visited: set<Name>,
                   more: seq<Name>, visited': set<Name>)
    requires Gathered(g, start, visited0, result, visited) && Edge(g, start, next) && next !in visited
    requires Gathered(g, next, visited + {next}, more, visited') && forall d :: Edge(g, next, d) ==> d in visited'
    ensures Gathered(g, start, visited0, result + [next] + more, visited')
    ensures visited + {next} <= visited'
  {
    Spliced(result, next, more);
    PreorderMore(g, start, next, result, more);
    EdgeReaches(g, start, next);
    forall d | d in Elements(more) ensures Reaches(g, start, d) {
      ReachesJoin(g, start, next, d);
    }
  }

  lemma Spliced(s: seq<Name>, a: Name, t: seq<Name>)
    requires Distinct(s) && Distinct(t) && a !in Elements(s) && Elements(t) !! Elements(s) + {a}
    ensures Distinct(s + [a] + t)
    ensures Elements(s + [a] + t) == Elements(s) + {a} + Elements(t)
  {
    ElementsAppend(s, a);
    ElementsConcat(s + [a], t);
    DistinctConcat(s, a, t);
  }

  lemma DistinctConcat(s: seq<Name>, a: Name, t: seq<Name>)
    requires Distinct(s) && Distinct(t) && a !in Elements(s) && Elements(t) !! Elements(s) + {a}
    ensures Distinct(s + [a] + t)
  {
    var r := s + [a] + t;
    forall i, j | 0 <= i < j < |r| ensures r[i] != r[j] {
      if j > |s| {
        assert r[j] in Elements(t);
      }
      if i < |s| {
        assert r[i] in Elements(s);
      } else if i > |s| {
        assert r[i] == t[i - |s| - 1] && r[j] == t[j - |s| - 1];
      }
    }
  }

  lemma ReachesJoin(g: Graph, a: Name, b: Name, d: Name)
    requires Reaches(g, a, b) && Reaches(g, b, d)
    ensures Reaches(g, a, d)
  {
    var p :| Joins(g, p, a, b);
    var q :| Joins(g, q, b, d);
    var r := p + q[1..];
    forall i | 0 <= i < |r| - 1 ensures Edge(g, r[i], r[i + 1]) {
      if i >= |p| - 1 {
        assert r[i] == q[i - |p| + 1] && r[i + 1] == q[i - |p| + 2];
      }
    }
    assert Joins(g, r, a, d);
  }

  /** A set with all first steps and closed under further steps holds everything reached. */
  lemma FoundAll(g: Graph, a: Name, s: set<Name>, d: Name)
    requires forall x :: Edge(g, a, x) ==> x in s
    requires DependencyClosed(g, s) && Reaches(g, a, d)
    ensures d in s
  {
    var p :| Joins(g, p, a, d);
    assert Edge(g, p[0], p[1]);
    if |p| > 2 {
      assert Joins(g, p[1..], p[1], d);
      ReachesInside(g, s, p[1], d);
    }
  }
}
