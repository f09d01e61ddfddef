/**
 ServiceManager.start in core/lifecycle/manager.js: starting one service after its
 dependencies, recursively, with any start allowed to throw.
 */
module ServiceManager {
  import opened AcyclicGraphs
  import opened ServiceEvents
  import opened StartOrder
  import opened StartRule
  import opened ServiceLifecycle

  // ---------------------------------------------------------------------------
  // Starting, as a function of the states
  // ---------------------------------------------------------------------------

  /** Service.start: `willing` holds the services whose start hook returns. */
  function Stepped(st: States, willing: set<Name>, n: Name): (r: States)
    requires n in st
    ensures r.Keys == st.Keys
  {
    st[n := if st[n] != Ready && st[n] != Stopped then st[n] else if n in willing then Running else Errored]
  }

  predicate CanRun(st: States, willing: set<Name>, n: Name) {
    n in st && (st[n] == Running || ((st[n] == Ready || st[n] == Stopped) && n in willing))
  }

  /** What is left to start. */
  function Pending(g: Graph, st: States): Graph {
    Graph(g.nodes - RunningIn(st), g.deps)
  }

  /** The service asked for and the pending services it leads to through pending ones. */
  ghost function Needed(g: Graph, st: States, n: Name): set<Name> {
    {n} + ReachSet(Pending(g, st), n)
  }

  /** Whether the call returned, what the services announced, and the states at the end. */
  datatype Outcome = Outcome(ok: bool, log: Log, end: States)

  ghost predicate Grows(st: States, o: Outcome) {
    o.end.Keys == st.Keys && RunningIn(st) <= RunningIn(o.end)
  }

  /**
   `start` with room for `depth` nested calls. A service that is being started and is reached again is started
   again, so on a cycle the calls nest until they do not fit any more; the error then ends all of them.
   */
  ghost function Run(g: Graph, willing: set<Name>, st: States, name: Name, depth: nat): (o: Outcome)
    requires st.Keys == g.nodes
    ensures Grows(st, o)
    decreases depth, 0, 0
  {
    if depth == 0 || name !in st then Outcome(false, [], st)
    else
      var o := RunFrom(g, willing, st, name, 0, depth - 1);
      if !o.ok then o
      else Outcome(CanRun(o.end, willing, name), o.log + StartLog(name, o.end[name], name in willing),
                   Stepped(o.end, willing, name))
  }

  /** The dependencies of `name` from the i-th on. */
  ghost function RunFrom(g: Graph, willing: set<Name>, st: States, name: Name, i: nat, depth: nat): (o: Outcome)
    requires st.Keys == g.nodes && i <= |DepsOf(g, name)|
    ensures Grows(st, o)
    decreases depth, 1, |DepsOf(g, name)| - i
  {
    if i == |DepsOf(g, name)| then Outcome(true, [], st)
    else
      var dep := DepsOf(g, name)[i];
      if dep in st && st[dep] != Running then
        var o := Run(g, willing, st, dep, depth);
        if !o.ok then o else Then(o, RunFrom(g, willing, o.end, name, i + 1, depth))
      else RunFrom(g, willing, st, name, i + 1, depth)
  }

  /** One outcome and then another. */
  function Then(o: Outcome, rest: Outcome): Outcome {
    Outcome(rest.ok, o.log + rest.log, rest.end)
  }

  lemma ThenNothing(a: Outcome, b: Outcome)
    ensures a.log == [] ==> Then(a, b) == b
    ensures b == Outcome(a.ok, [], a.end) ==> Then(a, b) == a
  {
    assert [] + b.log == b.log && a.log + [] == a.log;
  }

  lemma ThenAssociates(a: Outcome, b: Outcome, c: Outcome)
    ensures Then(Then(a, b), c) == Then(a, Then(b, c))
  {
    Appended(a.log, b.log, c.log);
  }

  // ---------------------------------------------------------------------------
  // What every run keeps
  // ---------------------------------------------------------------------------

  /** Each service keeps its state or takes the one step that Service.start allows. */
  ghost predicate StepsFrom(st: States, willing: set<Name>, st': States) {
    && st'.Keys == st.Keys
    && forall n :: n in st ==> st'[n] == st[n] || st'[n] == Stepped(st, willing, n)[n]
  }

  /** Newly running services have their registered dependencies running. */
  ghost predicate NewClosed(g: Graph, r: set<Name>, r': set<Name>) {
    forall a, d :: a in r' && a !in r && Edge(g, a, d) ==> d in r'
  }

  /** The announcements lead from st to end and, from a closed state, through closed states only. */
  ghost predicate Announces(g: Graph, st: States, log: Log, end: States) {
    Replay(st, log) == end && (DependencyClosed(g, RunningIn(st)) ==> ClosedThroughout(g, st, log))
  }

  /** A service on a cycle of services still to be started. */
  ghost predicate OnCycle(g: Graph, st: States, x: Name) {
    Reaches(Pending(g, st), x, x)
  }

  ghost predicate CyclesStay(g: Graph, st: States, end: States) {
    forall x :: OnCycle(g, st, x) ==> x !in RunningIn(end)
  }

  /** A chain of `length` services still to be started, each needing the next, from what `name` needs on. */
  ghost predicate Chain(g: Graph, st: States, name: Name, length: nat)
    decreases length
  {
    length == 0 || exists dep :: Edge(Pending(g, st), name, dep) && Chain(g, st, dep, length - 1)
  }

  /** Why a start throws: some service cannot run, or the nested calls do not fit. */
  ghost predicate Refused(g: Graph, willing: set<Name>, st: States, scope: set<Name>, name: Name, depth: nat) {
    (exists x :: x in scope && !CanRun(st, willing, x)) || Chain(g, st, name, depth)
  }

  ghost predicate Kept(g: Graph, willing: set<Name>, st: States, scope: set<Name>, o: Outcome) {
    && Announces(g, st, o.log, o.end)
    && NewClosed(g, RunningIn(st), RunningIn(o.end))
    && StepsFrom(st, willing, o.end)
    && (forall n :: n in st && n !in scope ==> o.end[n] == st[n])
    && CyclesStay(g, st, o.end)
  }

  lemma PendingShrinks(g: Graph, st: States, end: States, name: Name)
    requires RunningIn(st) <= RunningIn(end)
    ensures ReachSet(Pending(g, end), name) <= ReachSet(Pending(g, st), name)
  {
    ReachSetMonotone(Pending(g, end), Pending(g, st), name);
  }

  /** A pending dependency leads to nothing but what the service leads to. */
  lemma PendingEdge(g: Graph, st: States, name: Name, dep: Name)
    requires Edge(Pending(g, st), name, dep)
    ensures Needed(g, st, dep) <= ReachSet(Pending(g, st), name)
  {
    EdgeReaches(Pending(g, st), name, dep);
    forall x | x in ReachSet(Pending(g, st), dep) ensures x in ReachSet(Pending(g, st), name) {
      EdgeThenReaches(Pending(g, st), name, dep, x);
    }
  }

  lemma {:induction false} ChainShrinks(g: Graph, st: States, end: States, name: Name, length: nat)
    requires RunningIn(st) <= RunningIn(end) && Chain(g, end, name, length)
    ensures Chain(g, st, name, length)
    decreases length
  {
    if length > 0 {
      var dep :| Edge(Pending(g, end), name, dep) && Chain(g, end, dep, length - 1);
      ChainShrinks(g, st, end, dep, length - 1);
      assert Edge(Pending(g, st), name, dep);
    }
  }

  /** Every service on a cycle has another one, or itself, as a dependency on a cycle. */
  lemma NextOnCycle(g: Graph, st: States, x: Name) returns (y: Name)
    requires OnCycle(g, st, x)
    ensures Edge(Pending(g, st), x, y) && OnCycle(g, st, y)
  {
    var h := Pending(g, st);
    var p :| Joins(h, p, x, x);
    y := p[1];
    assert Edge(h, p[0], p[1]);
    if |p| > 2 {
      assert Joins(h, p[1..], y, x) by {
        forall i | 0 <= i < |p[1..]| - 1 ensures Edge(h, p[1..][i], p[1..][i + 1]) {
          assert Edge(h, p[i + 1], p[i + 2]);
        }
      }
      ReachesEdge(h, y, x, y);
    }
  }

  /** A cycle none of whose services has started is still one. */
  lemma CycleStays(g: Graph, st: States, mid: States, x: Name)
    requires CyclesStay(g, st, mid) && OnCycle(g, st, x)
    ensures OnCycle(g, mid, x)
  {
    var h := Pending(g, st);
    var p :| Joins(h, p, x, x);
    forall i | 0 <= i < |p| - 1 ensures Edge(Pending(g, mid), p[i], p[i + 1]) {
      assert Edge(h, p[i], p[i + 1]);
      PlaceOnCycle(g, st, p, x, i + 1);
    }
    assert Joins(Pending(g, mid), p, x, x);
  }

  lemma PlaceOnCycle(g: Graph, st: States, p: seq<Name>, x: Name, i: nat)
    requires Joins(Pending(g, st), p, x, x) && 0 < i < |p|
    ensures OnCycle(g, st, p[i])
  {
    var h := Pending(g, st);
    if i < |p| - 1 {
      var q := p[i..] + p[1..i + 1];
      forall j | 0 <= j < |q| - 1 ensures Edge(h, q[j], q[j + 1]) {
        if j < |p| - 1 - i {
          assert q[j] == p[i + j] && q[j + 1] == p[i + j + 1];
        } else {
          var k := j - (|p| - 1 - i);
          assert q[j] == p[k] && q[j + 1] == p[k + 1];
        }
      }
      assert Joins(h, q, p[i], p[i]);
    }
  }

  lemma StepsCompose(st: States, willing: set<Name>, st1: States, st2: States)
    requires StepsFrom(st, willing, st1) && StepsFrom(st1, willing, st2)
    ensures StepsFrom(st, willing, st2)
  {
  }

  lemma StillUnable(st: States, willing: set<Name>, st': States, x: Name)
    requires StepsFrom(st, willing, st') && !CanRun(st', willing, x)
    ensures !CanRun(st, willing, x)
  {
  }

  lemma AnnouncesThen(g: Graph, st: States, log: Log, mid: States, more: Log, end: States)
    requires Announces(g, st, log, mid) && Announces(g, mid, more, end)
    ensures Announces(g, st, log + more, end)
  {
    ReplayConcat(st, log, more);
    if DependencyClosed(g, RunningIn(st)) {
      assert ClosedAfter(g, st, log);
      ClosedConcat(g, st, log, more);
    }
  }

  lemma KeptThen(g: Graph, willing: set<Name>, st: States, scope: set<Name>, o: Outcome, inner: set<Name>,
                 rest: Outcome, outer: set<Name>)
    requires Grows(st, o) && Kept(g, willing, st, inner, o)
    requires Grows(o.end, rest) && Kept(g, willing, o.end, outer, rest)
    requires inner <= scope && outer <= scope
    ensures Kept(g, willing, st, scope, Then(o, rest))
  {
    AnnouncesThen(g, st, o.log, o.end, rest.log, rest.end);
    StepsCompose(st, willing, o.end, rest.end);
    forall x | OnCycle(g, st, x) ensures x !in RunningIn(rest.end) {
      CycleStays(g, st, o.end, x);
    }
  }

  ghost predicate RunGood(g: Graph, willing: set<Name>, st: States, name: Name, depth: nat, o: Outcome) {
    && Kept(g, willing, st, Needed(g, st, name), o)
    && (o.ok ==> name in RunningIn(o.end) && Supported(g, name, RunningIn(o.end)))
    && (!o.ok ==> Refused(g, willing, st, Needed(g, st, name), name, depth))
  }

  ghost predicate DepsRunFrom(g: Graph, name: Name, i: nat, r: set<Name>) {
    forall k :: i <= k < |DepsOf(g, name)| && DepsOf(g, name)[k] in g.nodes ==> DepsOf(g, name)[k] in r
  }

  ghost predicate RunFromGood(g: Graph, willing: set<Name>, st: States, name: Name, i: nat, depth: nat, o: Outcome) {
    && Kept(g, willing, st, ReachSet(Pending(g, st), name), o)
    && (o.ok ==> DepsRunFrom(g, name, i, RunningIn(o.end)))
    && (!o.ok ==> Refused(g, willing, st, ReachSet(Pending(g, st), name), name, depth + 1))
  }

  lemma {:induction false} RunKeeps(g: Graph, willing: set<Name>, st: States, name: Name, depth: nat)
    requires st.Keys == g.nodes
    ensures RunGood(g, willing, st, name, depth, Run(g, willing, st, name, depth))
    decreases depth, 0, 0
  {
    NothingKept(g, willing, st);
    if depth > 0 && name in st {
      var o := RunFrom(g, willing, st, name, 0, depth - 1);
      RunFromKeeps(g, willing, st, name, 0, depth - 1, o);
      if o.ok {
        FinalStep(g, willing, st, name, o);
        if !CanRun(o.end, willing, name) {
          StillUnable(st, willing, o.end, name);
        }
      }
    }
  }

  lemma NothingKept(g: Graph, willing: set<Name>, st: States)
    ensures forall scope, ok :: Kept(g, willing, st, scope, Outcome(ok, [], st))
  {
    forall x | OnCycle(g, st, x) ensures x !in RunningIn(st) {
      var p :| Joins(Pending(g, st), p, x, x);
      assert Edge(Pending(g, st), p[|p| - 2], p[|p| - 1]);
    }
  }

  /** Service.start, seen through its announcements. */
  lemma StepAnnounces(g: Graph, willing: set<Name>, st: States, name: Name)
    requires name in st && Supported(g, name, RunningIn(st))
    ensures Announces(g, st, StartLog(name, st[name], name in willing), Stepped(st, willing, name))
  {
    if st[name] == Ready || st[name] == Stopped {
      var last := if name in willing then ServiceStarted(name) else ServiceError(name);
      ReplayOne(st, ServiceStarting(name));
      ReplayTwo(st, ServiceStarting(name), last);
      assert RunningIn(st[name := Starting]) == RunningIn(st);
      assert RunningIn(Stepped(st, willing, name)) == RunningIn(st) + if name in willing then {name} else {};
      if DependencyClosed(g, RunningIn(st)) {
        ClosedThroughoutTwo(g, st, ServiceStarting(name), last);
      }
    }
  }

  /** A service on a cycle never has all its dependencies running, so none on it ever starts. */
  lemma StepKeepsCycles(g: Graph, willing: set<Name>, st: States, mid: States, name: Name)
    requires CyclesStay(g, st, mid) && name in mid && Supported(g, name, RunningIn(mid))
    ensures CyclesStay(g, st, Stepped(mid, willing, name))
  {
    forall x | OnCycle(g, st, x) ensures x !in RunningIn(Stepped(mid, willing, name)) {
      if x == name {
        var y := NextOnCycle(g, st, x);
        assert Edge(g, name, y);
      }
    }
  }

  lemma FinalStep(g: Graph, willing: set<Name>, st: States, name: Name, o: Outcome)
    requires st.Keys == g.nodes && name in st && Grows(st, o) && o.ok
    requires Kept(g, willing, st, ReachSet(Pending(g, st), name), o)
    requires Supported(g, name, RunningIn(o.end))
    ensures var log := StartLog(name, o.end[name], name in willing);
            var o' := Outcome(CanRun(o.end, willing, name), o.log + log, Stepped(o.end, willing, name));
            && Kept(g, willing, st, Needed(g, st, name), o')
            && (o'.ok ==> name in RunningIn(o'.end)) && Supported(g, name, RunningIn(o'.end))
  {
    StepAnnounces(g, willing, o.end, name);
    AnnouncesThen(g, st, o.log, o.end, StartLog(name, o.end[name], name in willing), Stepped(o.end, willing, name));
    StepsCompose(st, willing, o.end, Stepped(o.end, willing, name));
    StepKeepsCycles(g, willing, st, o.end, name);
  }

  lemma FirstRuns(g: Graph, willing: set<Name>, st: States, name: Name, i: nat, depth: nat,
                  o: Outcome, rest: Outcome, all: Outcome)
    requires i < |DepsOf(g, name)| && Edge(Pending(g, st), name, DepsOf(g, name)[i])
    requires Grows(st, o) && o.ok && RunGood(g, willing, st, DepsOf(g, name)[i], depth, o)
    requires Grows(o.end, rest) && RunFromGood(g, willing, o.end, name, i + 1, depth, rest) && all == Then(o, rest)
    ensures RunFromGood(g, willing, st, name, i, depth, all)
  {
    var dep := DepsOf(g, name)[i];
    PendingEdge(g, st, name, dep);
    PendingShrinks(g, st, o.end, name);
    KeptThen(g, willing, st, ReachSet(Pending(g, st), name), o, Needed(g, st, dep),
             rest, ReachSet(Pending(g, o.end), name));
    if !rest.ok {
      RefusedEarlier(g, willing, st, o.end, name, depth + 1);
    }
  }

  lemma RefusedEarlier(g: Graph, willing: set<Name>, st: States, mid: States, name: Name, depth: nat)
    requires RunningIn(st) <= RunningIn(mid) && StepsFrom(st, willing, mid)
    requires Refused(g, willing, mid, ReachSet(Pending(g, mid), name), name, depth)
    ensures Refused(g, willing, st, ReachSet(Pending(g, st), name), name, depth)
  {
    PendingShrinks(g, st, mid, name);
    if Chain(g, mid, name, depth) {
      ChainShrinks(g, st, mid, name, depth);
    } else {
      var x :| x in ReachSet(Pending(g, mid), name) && !CanRun(mid, willing, x);
      StillUnable(st, willing, mid, x);
    }
  }

  lemma FirstFails(g: Graph, willing: set<Name>, st: States, name: Name, i: nat, depth: nat, o: Outcome)
    requires i < |DepsOf(g, name)| && Edge(Pending(g, st), name, DepsOf(g, name)[i])
    requires Grows(st, o) && !o.ok && RunGood(g, willing, st, DepsOf(g, name)[i], depth, o)
    ensures RunFromGood(g, willing, st, name, i, depth, o)
  {
    PendingEdge(g, st, name, DepsOf(g, name)[i]);
  }

  lemma FirstAlreadyRuns(g: Graph, willing: set<Name>, st: States, name: Name, i: nat, depth: nat, o: Outcome)
    requires st.Keys == g.nodes && i < |DepsOf(g, name)| && !Edge(Pending(g, st), name, DepsOf(g, name)[i])
    requires Grows(st, o) && RunFromGood(g, willing, st, name, i + 1, depth, o)
    ensures RunFromGood(g, willing, st, name, i, depth, o)
  {
    assert RunningIn(st) <= RunningIn(o.end);
  }

  /** The dependency is pending: RunFrom starts it and goes on only if that succeeds. */
  lemma RunFromPending(g: Graph, willing: set<Name>, st: States, name: Name, i: nat, depth: nat)
    requires st.Keys == g.nodes && i < |DepsOf(g, name)| && Edge(Pending(g, st), name, DepsOf(g, name)[i])
    ensures var o := Run(g, willing, st, DepsOf(g, name)[i], depth);
            RunFrom(g, willing, st, name, i, depth)
            == if o.ok then Then(o, RunFrom(g, willing, o.end, name, i + 1, depth)) else o
  {
  }

  lemma RunFromSkips(g: Graph, willing: set<Name>, st: States, name: Name, i: nat, depth: nat)
    requires st.Keys == g.nodes && i < |DepsOf(g, name)| && !Edge(Pending(g, st), name, DepsOf(g, name)[i])
    ensures RunFrom(g, willing, st, name, i, depth) == RunFrom(g, willing, st, name, i + 1, depth)
  {
  }

  lemma {:induction false} RunFromKeeps(g: Graph, willing: set<Name>, st: States, name: Name, i: nat, depth: nat,
                                        all: Outcome)
    requires st.Keys == g.nodes && i <= |DepsOf(g, name)| && all == RunFrom(g, willing, st, name, i, depth)
    ensures RunFromGood(g, willing, st, name, i, depth, all)
    decreases depth, 1, |DepsOf(g, name)| - i
  {
    if i == |DepsOf(g, name)| {
      NothingKept(g, willing, st);
    } else {
      var dep := DepsOf(g, name)[i];
      if dep in st && st[dep] != Running {
        RunFromPending(g, willing, st, name, i, depth);
        RunKeeps(g, willing, st, dep, depth);
        var o := Run(g, willing, st, dep, depth);
        if o.ok {
          var rest := RunFrom(g, willing, o.end, name, i + 1, depth);
          RunFromKeeps(g, willing, o.end, name, i + 1, depth, rest);
          FirstRuns(g, willing, st, name, i, depth, o, rest, all);
        } else {
          FirstFails(g, willing, st, name, i, depth, o);
        }
      } else {
        RunFromSkips(g, willing, st, name, i, depth);
        RunFromKeeps(g, willing, st, name, i + 1, depth, all);
        FirstAlreadyRuns(g, willing, st, name, i, depth, all);
      }
    }
  }

  lemma RunAfterDependencies(g: Graph, willing: set<Name>, st: States, name: Name, depth: nat)
    requires st.Keys == g.nodes && name in st && depth > 0
    ensures var o := RunFrom(g, willing, st, name, 0, depth - 1);
            Run(g, willing, st, name, depth)
            == if o.ok then Outcome(CanRun(o.end, willing, name), o.log + StartLog(name, o.end[name], name in willing),
                                    Stepped(o.end, willing, name))
               else o
  {
  }

  // ---------------------------------------------------------------------------
  // Main results
  // ---------------------------------------------------------------------------

  /** After every announcement on the way the running services are closed under dependencies. */
  lemma StartKeepsClosed(g: Graph, willing: set<Name>, st: States, name: Name, depth: nat)
    requires st.Keys == g.nodes && DependencyClosed(g, RunningIn(st))
    ensures ClosedThroughout(g, st, Run(g, willing, st, name, depth).log)
    ensures Replay(st, Run(g, willing, st, name, depth).log) == Run(g, willing, st, name, depth).end
  {
    RunKeeps(g, willing, st, name, depth);
  }

  lemma {:induction false} NewlyRunningAlong(g: Graph, st: States, r: set<Name>, p: seq<Name>, k: nat)
    requires NewClosed(g, RunningIn(st), r) && IsPath(Pending(g, st), p) && 1 <= k < |p| && p[1] in r
    ensures p[k] in r
  {
    assert Edge(Pending(g, st), p[k - 1], p[k]);
    if k > 1 {
      NewlyRunningAlong(g, st, r, p, k - 1);
      assert Edge(Pending(g, st), p[k - 2], p[k - 1]);
      assert Edge(g, p[k - 1], p[k]);
    }
  }

  lemma NeededRuns(g: Graph, willing: set<Name>, st: States, name: Name, depth: nat, o: Outcome)
    requires st.Keys == g.nodes && o == Run(g, willing, st, name, depth) && o.ok
    ensures Needed(g, st, name) <= RunningIn(o.end)
  {
    RunKeeps(g, willing, st, name, depth);
    var r := RunningIn(o.end);
    assert NewClosed(g, RunningIn(st), r);
    forall x | x in ReachSet(Pending(g, st), name) ensures x in r {
      var p :| Joins(Pending(g, st), p, name, x);
      assert Edge(Pending(g, st), p[0], p[1]);
      assert Edge(g, name, p[1]);
      NewlyRunningAlong(g, st, r, p, |p| - 1);
    }
  }

  /** What runs at the end was on no cycle, so a start that returns leads to none. */
  lemma SuccessIsAcyclic(g: Graph, willing: set<Name>, st: States, name: Name, depth: nat, o: Outcome)
    requires st.Keys == g.nodes && o == Run(g, willing, st, name, depth) && o.ok
    ensures AcyclicFrom(Pending(g, st), name)
  {
    RunKeeps(g, willing, st, name, depth);
    NeededRuns(g, willing, st, name, depth, o);
    assert CyclesStay(g, st, o.end);
    assert !OnCycle(g, st, name);
    forall x | Reaches(Pending(g, st), name, x) ensures !Reaches(Pending(g, st), x, x) {
      if OnCycle(g, st, x) {
        CycleIsPending(g, st, x);
      }
    }
  }

  lemma CycleIsPending(g: Graph, st: States, x: Name)
    requires OnCycle(g, st, x)
    ensures x in Pending(g, st).nodes
  {
    var p :| Joins(Pending(g, st), p, x, x);
    assert Edge(Pending(g, st), p[|p| - 2], p[|p| - 1]);
  }

  /** Without a cycle a chain is no longer than there are services to start. */
  lemma {:induction false} ChainBounded(g: Graph, st: States, name: Name, length: nat)
    requires AcyclicFrom(Pending(g, st), name) && Chain(g, st, name, length)
    ensures length <= |ReachSet(Pending(g, st), name)|
    decreases length
  {
    if length > 0 {
      var h := Pending(g, st);
      var dep :| Edge(h, name, dep) && Chain(g, st, dep, length - 1);
      AcyclicFromEdge(h, name, dep);
      ReachSetShrinks(h, name, dep);
      ChainBounded(g, st, dep, length - 1);
      SmallerSet(ReachSet(h, dep), ReachSet(h, name));
    }
  }

  lemma SmallerSet(s: set<Name>, t: set<Name>)
    requires s < t
    ensures |s| < |t|
  {
    assert |t - s| > 0 && t == s + (t - s);
  }

  lemma SubsetSize(s: set<Name>, t: set<Name>)
    requires s <= t
    ensures |s| <= |t|
  {
    assert t == s + (t - s);
  }

  /** With room for more calls than there are services, `start` returns exactly when no cycle is still to be
      started below the service, it is registered, and it and everything still to be started below it can run;
      then all of that runs. */
  lemma StartSucceedsIff(g: Graph, willing: set<Name>, st: States, name: Name, depth: nat)
    requires st.Keys == g.nodes && depth > |g.nodes|
    ensures var o := Run(g, willing, st, name, depth);
            && (o.ok <==> AcyclicFrom(Pending(g, st), name)
                          && forall x :: x in Needed(g, st, name) ==> CanRun(st, willing, x))
            && (o.ok ==> Needed(g, st, name) <= RunningIn(o.end))
  {
    RunKeeps(g, willing, st, name, depth);
    var o := Run(g, willing, st, name, depth);
    if o.ok {
      NeededRuns(g, willing, st, name, depth, o);
      SuccessIsAcyclic(g, willing, st, name, depth, o);
      assert StepsFrom(st, willing, o.end);
    } else if AcyclicFrom(Pending(g, st), name) && Chain(g, st, name, depth) {
      ChainBounded(g, st, name, depth);
      SubsetSize(ReachSet(Pending(g, st), name), g.nodes);
    }
  }

  /** Where the nested calls fit, room for more of them changes nothing. */
  lemma {:induction false} RoomIsEnough(g: Graph, willing: set<Name>, st: States, name: Name, d: nat, e: nat)
    requires st.Keys == g.nodes && !Chain(g, st, name, d) && !Chain(g, st, name, e)
    ensures Run(g, willing, st, name, d) == Run(g, willing, st, name, e)
    decreases d, 0, 0, 0
  {
    if name in st {
      RoomFrom(g, willing, st, name, 0, d - 1, e - 1);
    }
  }

  lemma NoLaterChain(g: Graph, st: States, end: States, name: Name, length: nat)
    requires RunningIn(st) <= RunningIn(end) && !Chain(g, st, name, length)
    ensures !Chain(g, end, name, length)
  {
    if Chain(g, end, name, length) {
      ChainShrinks(g, st, end, name, length);
    }
  }

  lemma NoInnerChain(g: Graph, st: States, name: Name, dep: Name, length: nat)
    requires Edge(Pending(g, st), name, dep) && !Chain(g, st, name, length + 1)
    ensures !Chain(g, st, dep, length)
  {
  }

  lemma {:induction false} RoomFrom(g: Graph, willing: set<Name>, st: States, name: Name, i: nat, d: nat, e: nat)
    requires st.Keys == g.nodes && !Chain(g, st, name, d + 1) && !Chain(g, st, name, e + 1)
    requires i <= |DepsOf(g, name)|
    ensures RunFrom(g, willing, st, name, i, d) == RunFrom(g, willing, st, name, i, e)
    decreases d, 1, |DepsOf(g, name)| - i, 1
  {
    if i < |DepsOf(g, name)| {
      if Edge(Pending(g, st), name, DepsOf(g, name)[i]) {
        RoomPending(g, willing, st, name, i, d, e);
      } else {
        RunFromSkips(g, willing, st, name, i, d);
        RunFromSkips(g, willing, st, name, i, e);
        RoomFrom(g, willing, st, name, i + 1, d, e);
      }
    }
  }

  lemma {:induction false} RoomPending(g: Graph, willing: set<Name>, st: States, name: Name, i: nat, d: nat, e: nat)
    requires st.Keys == g.nodes && !Chain(g, st, name, d + 1) && !Chain(g, st, name, e + 1)
    requires i < |DepsOf(g, name)| && Edge(Pending(g, st), name, DepsOf(g, name)[i])
    ensures RunFrom(g, willing, st, name, i, d) == RunFrom(g, willing, st, name, i, e)
    decreases d, 1, |DepsOf(g, name)| - i, 0
  {
    var dep := DepsOf(g, name)[i];
    NoInnerChain(g, st, name, dep, d);
    NoInnerChain(g, st, name, dep, e);
    RoomIsEnough(g, willing, st, dep, d, e);
    var o := Run(g, willing, st, dep, d);
    if o.ok {
      RoomAfter(g, willing, st, name, i + 1, d, e, o);
    }
    RunFromPending(g, willing, st, name, i, d);
    RunFromPending(g, willing, st, name, i, e);
  }

  lemma {:induction false} RoomAfter(g: Graph, willing: set<Name>, st: States, name: Name, i: nat, d: nat, e: nat,
                                     o: Outcome)
    requires st.Keys == g.nodes && !Chain(g, st, name, d + 1) && !Chain(g, st, name, e + 1) && Grows(st, o)
    requires 0 < i <= |DepsOf(g, name)|
    ensures RunFrom(g, willing, o.end, name, i, d) == RunFrom(g, willing, o.end, name, i, e)
    decreases d, 1, |DepsOf(g, name)| - i, 2
  {
    NoLaterChain(g, st, o.end, name, d + 1);
    NoLaterChain(g, st, o.end, name, e + 1);
    RoomFrom(g, willing, o.end, name, i, d, e);
  }

  /** Without a cycle below the service, every room for more calls than there are services gives one outcome. */
  lemma DepthIrrelevant(g: Graph, willing: set<Name>, st: States, name: Name, d: nat, e: nat)
    requires st.Keys == g.nodes && AcyclicFrom(Pending(g, st), name) && d > |g.nodes| && e > |g.nodes|
    ensures Run(g, willing, st, name, d) == Run(g, willing, st, name, e)
  {
    SubsetSize(ReachSet(Pending(g, st), name), g.nodes);
    if Chain(g, st, name, d) {
      ChainBounded(g, st, name, d);
    } else if Chain(g, st, name, e) {
      ChainBounded(g, st, name, e);
    } else {
      RoomIsEnough(g, willing, st, name, d, e);
    }
  }

  /** No service on a cycle is ever started, whatever is asked for and however deep the calls nest. */
  lemma CyclesNeverStart(g: Graph, willing: set<Name>, st: States, name: Name, depth: nat, x: Name)
    requires st.Keys == g.nodes && OnCycle(g, st, x)
    ensures x !in RunningIn(Run(g, willing, st, name, depth).end)
  {
    RunKeeps(g, willing, st, name, depth);
  }

  /** On success from a closed state, all transitive registered dependencies run. */
  lemma DependenciesRunAfterStart(g: Graph, willing: set<Name>, st: States, name: Name, depth: nat, d: Name)
    requires st.Keys == g.nodes && DependencyClosed(g, RunningIn(st))
    requires Run(g, willing, st, name, depth).ok && Reaches(g, name, d)
    ensures d in RunningIn(Run(g, willing, st, name, depth).end)
  {
    RunKeeps(g, willing, st, name, depth);
    StartKeepsClosed(g, willing, st, name, depth);
    assert ClosedAfter(g, st, Run(g, willing, st, name, depth).log);
    ReachesInside(g, RunningIn(Run(g, willing, st, name, depth).end), name, d);
  }

  /** Nothing outside the needed services changes. */
  lemma OthersUntouched(g: Graph, willing: set<Name>, st: States, name: Name, depth: nat, n: Name)
    requires st.Keys == g.nodes && n in st && n !in Needed(g, st, name)
    ensures n in Run(g, willing, st, name, depth).end && Run(g, willing, st, name, depth).end[n] == st[n]
  {
    RunKeeps(g, willing, st, name, depth);
  }

  // Dependencies are started in the order in which they are listed, up to the first that throws.

  /** What has happened between two states: legal steps, nothing stopped, and what is new has its dependencies. */
  ghost predicate Since(g: Graph, willing: set<Name>, st: States, now: States) {
    StepsFrom(st, willing, now) && RunningIn(st) <= RunningIn(now) && NewClosed(g, RunningIn(st), RunningIn(now))
  }

  lemma SinceThen(g: Graph, willing: set<Name>, st: States, now: States, later: States)
    requires Since(g, willing, st, now) && Since(g, willing, now, later)
    ensures Since(g, willing, st, later)
  {
    StepsCompose(st, willing, now, later);
  }

  /** A service above one that cannot run does not come to run either. */
  lemma NeverUp(g: Graph, willing: set<Name>, st: States, now: States, d: Name, y: Name)
    requires Since(g, willing, st, now) && d !in RunningIn(st) && y in Needed(g, st, d) && !CanRun(st, willing, y)
    ensures d !in RunningIn(now)
  {
    assert y !in RunningIn(now);
    if y != d {
      var p :| Joins(Pending(g, st), p, d, y);
      assert Edge(Pending(g, st), p[0], p[1]) && Edge(g, d, p[1]);
      if p[1] in RunningIn(now) {
        NewlyRunningAlong(g, st, RunningIn(now), p, |p| - 1);
      }
    }
  }

  /** d is a pending dependency of a service, and y below it cannot run. */
  ghost predicate Stuck(g: Graph, willing: set<Name>, st: States, name: Name, i: nat, y: Name)
    requires i < |DepsOf(g, name)|
  {
    var d := DepsOf(g, name)[i];
    Edge(Pending(g, st), name, d) && y in Needed(g, st, d) && !CanRun(st, willing, y)
  }

  /** x is needed by none of the first i + 1 dependencies. */
  ghost predicate Beside(g: Graph, st: States, name: Name, i: nat, x: Name) {
    x in st && forall k :: 0 <= k <= i && k < |DepsOf(g, name)| ==> x !in Needed(g, st, DepsOf(g, name)[k])
  }

  lemma BesideRun(g: Graph, willing: set<Name>, st: States, now: States, dep: Name, depth: nat, x: Name, o: Outcome)
    requires st.Keys == now.Keys == g.nodes && Since(g, willing, st, now) && x in st && x !in Needed(g, st, dep)
    requires o == Run(g, willing, now, dep, depth)
    ensures Since(g, willing, st, o.end) && o.end.Keys == g.nodes && o.end[x] == now[x]
    ensures o.ok ==> dep in RunningIn(o.end)
  {
    RunKeeps(g, willing, now, dep, depth);
    PendingShrinks(g, st, now, dep);
    SinceThen(g, willing, st, now, o.end);
  }

  lemma {:induction false} StuckFrom(g: Graph, willing: set<Name>, st: States, now: States, name: Name, j: nat, i: nat,
                                     depth: nat, x: Name, y: Name)
    requires st.Keys == now.Keys == g.nodes && j <= i < |DepsOf(g, name)|
    requires Since(g, willing, st, now) && Stuck(g, willing, st, name, i, y) && Beside(g, st, name, i, x)
    ensures var o := RunFrom(g, willing, now, name, j, depth); !o.ok && o.end[x] == now[x]
    decreases i - j
  {
    var dep := DepsOf(g, name)[j];
    NeverUp(g, willing, st, now, DepsOf(g, name)[i], y);
    if Edge(Pending(g, now), name, dep) {
      var o := Run(g, willing, now, dep, depth);
      RunFromPending(g, willing, now, name, j, depth);
      BesideRun(g, willing, st, now, dep, depth, x, o);
      if o.ok {
        NeverUp(g, willing, st, o.end, DepsOf(g, name)[i], y);
        StuckFrom(g, willing, st, o.end, name, j + 1, i, depth, x, y);
      }
    } else {
      RunFromSkips(g, willing, now, name, j, depth);
      StuckFrom(g, willing, st, now, name, j + 1, i, depth, x, y);
    }
  }

  /** If something that dependency i needs cannot run, nothing is done for the dependencies listed after it. */
  lemma FailureStops(g: Graph, willing: set<Name>, st: States, name: Name, depth: nat, i: nat, x: Name, y: Name)
    requires st.Keys == g.nodes && name in st && i < |DepsOf(g, name)|
    requires Stuck(g, willing, st, name, i, y) && Beside(g, st, name, i, x)
    ensures var o := Run(g, willing, st, name, depth); !o.ok && o.end[x] == st[x]
  {
    if depth > 0 {
      StuckFrom(g, willing, st, st, name, 0, i, depth - 1, x, y);
    }
  }

  /** Starting one service without its dependencies. */
  function StartAlone(willing: set<Name>, st: States, name: Name): Outcome {
    if name !in st then Outcome(false, [], st)
    else Outcome(CanRun(st, willing, name), StartLog(name, st[name], name in willing), Stepped(st, willing, name))
  }

  /** It changes this service only, and announces what it does. */
  lemma StartAloneOnly(willing: set<Name>, st: States, name: Name)
    ensures var o := StartAlone(willing, st, name);
            && (o.ok <==> name in o.end && o.end[name] == Running)
            && (o.ok <==> CanRun(st, willing, name))
            && o.end.Keys == st.Keys && (forall n <- st.Keys - {name} :: o.end[n] == st[n])
            && Replay(st, o.log) == o.end
  {
    if name in st && (st[name] == Ready || st[name] == Stopped) {
      ReplayTwo(st, ServiceStarting(name), if name in willing then ServiceStarted(name) else ServiceError(name));
    }
  }

  /** And so breaks the dependency order, unless it fails or the dependencies are running already. */
  lemma StartAloneClosedIff(g: Graph, willing: set<Name>, st: States, name: Name)
    requires DependencyClosed(g, RunningIn(st))
    ensures var o := StartAlone(willing, st, name);
            DependencyClosed(g, RunningIn(o.end)) <==> !o.ok || Supported(g, name, RunningIn(st) + {name})
  {
    StartAloneOnly(willing, st, name);
    var o := StartAlone(willing, st, name);
    assert RunningIn(o.end) == if o.ok then RunningIn(st) + {name} else RunningIn(st);
  }

  // ---------------------------------------------------------------------------
  // The class
  // ---------------------------------------------------------------------------

  class ServiceManager {
    const eventBus: EventBus
    var services: map<Name, Service>
    var dependencyGraph: map<Name, seq<Name>>
    const autoStartDependencies: bool
    ghost var members: set<Service>

    ghost predicate Valid()
      reads `services, `members
    {
      forall n :: n in services ==>
        services[n] in members && services[n].name == n && services[n].eventBus == eventBus
    }

    constructor (eventBus: EventBus, autoStartDependencies: bool)
      ensures Valid() && services == map[] && dependencyGraph == map[]
      ensures this.eventBus == eventBus && this.autoStartDependencies == autoStartDependencies
    {
      this.eventBus, this.autoStartDependencies := eventBus, autoStartDependencies;
      services, dependencyGraph, members := map[], map[], {};
    }

    /** ok is false where the source throws because the name is taken. */
    method Register(name: Name, dependencies: seq<Name>, hooks: Hooks) returns (ok: bool)
      requires Valid()
      modifies `services, `members, `dependencyGraph, eventBus`log
      ensures Valid() && (ok <==> name !in old(services))
      ensures !ok ==> unchanged(this) && unchanged(eventBus)
      ensures ok ==> name in services && services == old(services)[name := services[name]] && fresh(services[name])
      ensures ok ==> services[name].state == Created && services[name].hooks == hooks
      ensures ok ==> dependencyGraph == if dependencies == [] then old(dependencyGraph)
                                        else old(dependencyGraph)[name := dependencies]
      ensures ok ==> eventBus.log == old(eventBus.log) + [ServiceRegistered(name)]
    {
      if name in services {
        return false;
      }
      var service := new Service(name, hooks, OnDemand, 0, eventBus);
      services := services[name := service];
      members := members + {service};
      if |dependencies| > 0 {
        dependencyGraph := dependencyGraph[name := dependencies];
      }
      eventBus.Emit(ServiceRegistered(name));
      return true;
    }

    ghost function G(): Graph
      reads `services, `dependencyGraph
    {
      Graph(services.Keys, dependencyGraph)
    }

    ghost function States(): (m: States)
      requires Valid()
      reads `services, `members, members`state
      ensures m.Keys == services.Keys
    {
      map n | n in services :: services[n].state
    }

    /** The services whose start hook returns. */
    ghost function Willing(): set<Name>
      reads `services
    {
      set n | n in services && services[n].hooks.start
    }

    method StartOne(name: Name) returns (ok: bool)
      requires Valid() && name in services
      modifies members`state, eventBus`log
      ensures States() == Stepped(old(States()), old(Willing()), name)
      ensures ok <==> CanRun(old(States()), old(Willing()), name)
      ensures eventBus.log == old(eventBus.log) + StartLog(name, old(States())[name], name in old(Willing()))
    {
      ok := services[name].Start();
    }

    /**
     o.ok is false where the source throws: no such service, some start failed, or no more calls fit, `depth`
     being how many of them do. Without autoStartDependencies the service is started alone.
     */
    method Start(name: Name, depth: nat) returns (ok: bool, ghost o: Outcome)
      requires Valid()
      modifies members`state, eventBus`log
      ensures o == if autoStartDependencies then old(Run(G(), Willing(), States(), name, depth))
                   else old(StartAlone(Willing(), States(), name))
      ensures ok == o.ok && States() == o.end && eventBus.log == old(eventBus.log) + o.log
      decreases depth, 0, 0
    {
      if name !in services || (autoStartDependencies && depth == 0) {
        return false, Outcome(false, [], States());
      }
      if !autoStartDependencies {
        o := StartAlone(Willing(), States(), name);
        ok := StartOne(name);
        return;
      }
      ghost var willing, before := Willing(), eventBus.log;
      RunAfterDependencies(G(), willing, States(), name, depth);
      ok, o := StartDependencies(name, depth - 1);
      if ok {
        ghost var log := StartLog(name, o.end[name], name in willing);
        Appended(before, o.log, log);
        o := Outcome(CanRun(o.end, willing, name), o.log + log, Stepped(o.end, willing, name));
        ok := StartOne(name);
      }
    }

    /** The loop over the dependencies; ok is false as soon as one of them throws. */
    method StartDependencies(name: Name, depth: nat) returns (ok: bool, ghost o: Outcome)
      requires Valid() && autoStartDependencies
      modifies members`state, eventBus`log
      ensures o == old(RunFrom(G(), Willing(), States(), name, 0, depth))
      ensures ok == o.ok && States() == o.end && eventBus.log == old(eventBus.log) + o.log
      decreases depth, 1, 2
    {
      ghost var all := RunFrom(G(), Willing(), States(), name, 0, depth);
      ThenNothing(Outcome(true, [], States()), all);
      var deps := if name in dependencyGraph then dependencyGraph[name] else [];
      ok := StartEach(G(), Willing(), name, deps, depth, eventBus.log, all);
      o := all;
    }

    method StartEach(ghost g: Graph, ghost willing: set<Name>, ghost name: Name, deps: seq<Name>, depth: nat,
                     ghost base: Log, ghost all: Outcome) returns (ok: bool)
      requires Valid() && autoStartDependencies && G() == g && Willing() == willing
      requires deps == DepsOf(g, name) && eventBus.log == base
      requires all == Then(Outcome(true, [], States()), RunFrom(g, willing, States(), name, 0, depth))
      modifies members`state, eventBus`log
      ensures ok == all.ok && States() == all.end && eventBus.log == base + all.log
      decreases depth, 1, 1
    {
      ghost var done := Outcome(true, [], States());
      var i := 0;
      while i < |deps|
        invariant 0 <= i <= |deps| && G() == g && Willing() == willing
        invariant done.ok && States() == done.end && eventBus.log == base + done.log
        invariant all == Then(done, RunFrom(g, willing, done.end, name, i, depth))
      {
        ok, done := StartNext(g, willing, name, deps[i], i, depth, base, done, all);
        if !ok {
          return false;
        }
        i := i + 1;
      }
      ThenNothing(done, RunFrom(g, willing, done.end, name, i, depth));
      return true;
    }

    /** The body of the loop, for the i-th dependency. */
    method StartNext(ghost g: Graph, ghost willing: set<Name>, ghost name: Name, dep: Name, ghost i: nat, depth: nat,
                     ghost base: Log, ghost done: Outcome, ghost all: Outcome)
      returns (ok: bool, ghost next: Outcome)
      requires Valid() && autoStartDependencies && G() == g && Willing() == willing && i < |DepsOf(g, name)|
      requires done.ok && States() == done.end && eventBus.log == base + done.log
      requires dep == DepsOf(g, name)[i]
      requires all == Then(done, RunFrom(g, willing, done.end, name, i, depth))
      modifies members`state, eventBus`log
      ensures ok == next.ok && States() == next.end && eventBus.log == base + next.log
      ensures !ok ==> next == all
      ensures ok ==> all == Then(next, RunFrom(g, willing, next.end, name, i + 1, depth))
      decreases depth, 1, 0
    {
      if dep !in services || services[dep].IsRunning() {
        RunFromSkips(g, willing, done.end, name, i, depth);
        return true, done;
      }
      RunFromPending(g, willing, done.end, name, i, depth);
      ghost var more;
      ok, more := Start(dep, depth);
      next := Then(done, more);
      Appended(base, done.log, more.log);
      if ok {
        ThenAssociates(done, more, RunFrom(g, willing, more.end, name, i + 1, depth));
      }
    }
  }
}
