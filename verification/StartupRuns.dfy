/**
 The sequential start-up and the shut-down of AutonomousManager (core/autonomous/manager.js) as functions of
 the states, the graph and what each service allows: what is reported, and what is announced in which order.
 */
module StartupRuns {
  import opened ServiceEvents
  import opened ServiceLifecycle
  import opened StartOrder
  import opened StartRule

  datatype StartResult = Success | Failed | Skipped

  datatype StartReport = StartReport(started: seq<Name>, failed: seq<Name>, skipped: seq<Name>)

  datatype StopReport = StopReport(stopped: seq<Name>, failed: seq<Name>)

  function Record(report: StartReport, result: StartResult, name: Name): StartReport {
    match result
    case Success => report.(started := report.started + [name])
    case Skipped => report.(skipped := report.skipped + [name])
    case Failed => report.(failed := report.failed + [name])
  }

  function RecordStop(report: StopReport, stopped: bool, name: Name): StopReport {
    if stopped then report.(stopped := report.stopped + [name]) else report.(failed := report.failed + [name])
  }

  /** The services whose policy lets them start by themselves, and those whose hooks return. */
  datatype Plan = Plan(allowed: set<Name>, inits: set<Name>, starts: set<Name>, stops: set<Name>)

  /** Services that start once their dependencies run. */
  function Startable(plan: Plan): set<Name> {
    plan.allowed * plan.inits * plan.starts
  }

  // ---------------------------------------------------------------------------
  // Start-up
  // ---------------------------------------------------------------------------

  datatype Attempt = Attempt(result: StartResult, log: Log)

  /** Policy, then dependencies, then the init and start hooks. */
  ghost function TryStart(g: Graph, plan: Plan, st: States, n: Name): Attempt {
    if n !in st then Attempt(Failed, [])
    else if n !in plan.allowed || !Supported(g, n, RunningIn(st)) then Attempt(Skipped, [])
    else if st[n] != Created then Attempt(Failed, [])
    else if n !in plan.inits then Attempt(Failed, InitLog(n, st[n], false))
    else Attempt(if n in plan.starts then Success else Failed,
                 InitLog(n, st[n], true) + StartLog(n, Ready, n in plan.starts))
  }

  /** What the attempts announce, one after the other. */
  function LogOf(attempts: seq<Attempt>): Log {
    if attempts == [] then [] else LogOf(attempts[..|attempts| - 1]) + attempts[|attempts| - 1].log
  }

  function ReportOf(names: seq<Name>, attempts: seq<Attempt>): StartReport
    requires |attempts| <= |names|
  {
    if attempts == [] then StartReport([], [], [])
    else
      var k := |attempts| - 1;
      Record(ReportOf(names, attempts[..k]), attempts[k].result, names[k])
  }

  /** The first i rounds: each service is tried in the states that the rounds before it have left. */
  ghost function StartRun(g: Graph, plan: Plan, st: States, order: seq<Name>, i: nat): (attempts: seq<Attempt>)
    requires i <= |order|
    ensures |attempts| == i
  {
    if i == 0 then []
    else
      var before := StartRun(g, plan, st, order, i - 1);
      before + [TryStart(g, plan, Replay(st, LogOf(before)), order[i - 1])]
  }

  datatype Startup = Startup(report: StartReport, log: Log, states: States)

  /** The report, the announcements and the states that the first i rounds of a start-up leave. */
  ghost function Started(g: Graph, plan: Plan, st: States, order: seq<Name>, i: nat): Startup
    requires i <= |order|
  {
    var run := StartRun(g, plan, st, order, i);
    Startup(ReportOf(order, run), LogOf(run), Replay(st, LogOf(run)))
  }

  lemma NothingStarted(g: Graph, plan: Plan, st: States, order: seq<Name>)
    ensures Started(g, plan, st, order, 0) == Startup(StartReport([], [], []), [], st)
  {
  }

  lemma StartRound(g: Graph, plan: Plan, st: States, order: seq<Name>, i: nat, before: Startup, a: Attempt, end: States)
    requires i < |order| && before == Started(g, plan, st, order, i)
    requires a == TryStart(g, plan, before.states, order[i]) && end == Replay(before.states, a.log)
    ensures Startup(Record(before.report, a.result, order[i]), before.log + a.log, end)
         == Started(g, plan, st, order, i + 1)
  {
    var run, all := StartRun(g, plan, st, order, i), StartRun(g, plan, st, order, i + 1);
    assert all[..i] == run && all[i] == a;
    ReplayConcat(st, before.log, a.log);
  }

  lemma TryStartReplays(g: Graph, plan: Plan, st: States, n: Name)
    requires n in st
    ensures var a := TryStart(g, plan, st, n);
            Replay(st, a.log) == if a.log == [] then st else st[n := if a.result == Success then Running else Errored]
  {
    var a := TryStart(g, plan, st, n);
    if a.log != [] {
      if n !in plan.inits {
        ReplayTwo(st, ServiceInit(n), ServiceError(n));
      } else {
        var last := if n in plan.starts then ServiceStarted(n) else ServiceError(n);
        assert a.log == [ServiceInit(n), ServiceStarting(n), last];
        ReplayThree(st, ServiceInit(n), ServiceStarting(n), last);
      }
    }
  }

  lemma TryStartRuns(g: Graph, plan: Plan, st: States, n: Name)
    requires n in st
    ensures var a := TryStart(g, plan, st, n);
            && Replay(st, a.log).Keys == st.Keys
            && RunningIn(Replay(st, a.log)) == RunningIn(st) + (if a.result == Success then {n} else {})
            && (a.result == Success ==> Supported(g, n, RunningIn(st)))
            && (forall m :: m in st && m != n ==> Replay(st, a.log)[m] == st[m])
            && (st[n] == Created ==> (a.result == Success <==> n in Startable(plan) && Supported(g, n, RunningIn(st))))
  {
    TryStartReplays(g, plan, st, n);
  }

  lemma TryStartClosed(g: Graph, plan: Plan, st: States, n: Name)
    requires n in st && DependencyClosed(g, RunningIn(st))
    ensures ClosedThroughout(g, st, TryStart(g, plan, st, n).log)
  {
    var log := TryStart(g, plan, st, n).log;
    TryStartRuns(g, plan, st, n);
    if log != [] {
      AnnouncedStarting(g, st, n);
      if n in plan.inits {
        assert log[..2] == [ServiceInit(n), ServiceStarting(n)];
      } else {
        assert log[..1] == [ServiceInit(n)];
      }
    }
  }

  lemma AnnouncedStarting(g: Graph, st: States, n: Name)
    requires n in st && st[n] == Created && DependencyClosed(g, RunningIn(st))
    ensures ClosedThroughout(g, st, [ServiceInit(n)])
    ensures ClosedThroughout(g, st, [ServiceInit(n), ServiceStarting(n)])
  {
    var init, starting := [ServiceInit(n)], [ServiceInit(n), ServiceStarting(n)];
    ReplayOne(st, ServiceInit(n));
    ReplayTwo(st, ServiceInit(n), ServiceStarting(n));
    assert RunningIn(Replay(st, init)) == RunningIn(st) && init[..0] == [];
    assert RunningIn(Replay(st, starting)) == RunningIn(st) && starting[..1] == init;
  }

  /** The services announced as started, in the order of the announcements. */
  function StartedIn(log: Log): seq<Name> {
    if log == [] then []
    else StartedIn(log[..|log| - 1])
         + if log[|log| - 1].ServiceStarted? then [log[|log| - 1].service] else []
  }

  lemma {:induction false} StartedInConcat(a: Log, b: Log)
    ensures StartedIn(a + b) == StartedIn(a) + StartedIn(b)
  {
    if b == [] {
      assert a + b == a;
    } else {
      StartedInConcat(a, b[..|b| - 1]);
      assert (a + b)[..|a + b| - 1] == a + b[..|b| - 1];
    }
  }

  lemma StartedInAttempt(g: Graph, plan: Plan, st: States, n: Name)
    ensures var a := TryStart(g, plan, st, n); StartedIn(a.log) == if a.result == Success then [n] else []
  {
    var a := TryStart(g, plan, st, n);
    if a.log != [] {
      var last := a.log[|a.log| - 1];
      if n !in plan.inits {
        StartedInShort(ServiceInit(n), ServiceInit(n), last);
      } else {
        assert a.log == [ServiceInit(n), ServiceStarting(n), last];
        StartedInShort(ServiceInit(n), ServiceStarting(n), last);
      }
    }
  }

  lemma StartedInShort(c: Event, d: Event, e: Event)
    requires !c.ServiceStarted? && !d.ServiceStarted?
    ensures StartedIn([c, e]) == (if e.ServiceStarted? then [e.service] else [])
    ensures StartedIn([c, d, e]) == (if e.ServiceStarted? then [e.service] else [])
  {
    assert [c][..0] == [] && [c, e][..1] == [c];
    assert StartedIn([c]) == [];
    assert [c, d, e][..2] == [c, d] && [c, d][..1] == [c];
    assert StartedIn([c, d]) == [];
  }

  // ---------------------------------------------------------------------------
  // What a sequence of attempts keeps
  // ---------------------------------------------------------------------------

  /** What the theorems need of one attempt to start n. */
  ghost predicate GoodAttempt(g: Graph, startable: set<Name>, st: States, n: Name, a: Attempt) {
    && (n in st ==>
        && Replay(st, a.log).Keys == st.Keys
        && RunningIn(Replay(st, a.log)) == RunningIn(st) + (if a.result == Success then {n} else {})
        && (forall m :: m in st && m != n ==> Replay(st, a.log)[m] == st[m])
        && (st[n] == Created ==> (a.result == Success <==> n in startable && Supported(g, n, RunningIn(st))))
        && (DependencyClosed(g, RunningIn(st)) ==> ClosedThroughout(g, st, a.log)))
    && StartedIn(a.log) == if a.result == Success then [n] else []
  }

  lemma TryStartGood(g: Graph, plan: Plan, st: States, n: Name)
    ensures GoodAttempt(g, Startable(plan), st, n, TryStart(g, plan, st, n))
  {
    if n in st {
      TryStartRuns(g, plan, st, n);
      if DependencyClosed(g, RunningIn(st)) {
        TryStartClosed(g, plan, st, n);
      }
    }
    StartedInAttempt(g, plan, st, n);
  }

  ghost predicate GoodAttempts(g: Graph, startable: set<Name>, st: States, order: seq<Name>, attempts: seq<Attempt>)
    requires |attempts| <= |order|
  {
    attempts == [] ||
    var k := |attempts| - 1;
    GoodAttempts(g, startable, st, order, attempts[..k])
    && GoodAttempt(g, startable, Replay(st, LogOf(attempts[..k])), order[k], attempts[k])
  }

  lemma {:induction false} GoodOneByOne(g: Graph, startable: set<Name>, st: States, order: seq<Name>,
                                        attempts: seq<Attempt>)
    requires |attempts| <= |order|
    requires forall k :: 0 <= k < |attempts| ==>
               GoodAttempt(g, startable, Replay(st, LogOf(attempts[..k])), order[k], attempts[k])
    ensures GoodAttempts(g, startable, st, order, attempts)
  {
    if attempts != [] {
      var before := attempts[..|attempts| - 1];
      forall k | 0 <= k < |before|
        ensures GoodAttempt(g, startable, Replay(st, LogOf(before[..k])), order[k], before[k])
      {
        TakeOfTake(attempts, |attempts| - 1, k);
      }
      GoodOneByOne(g, startable, st, order, before);
    }
  }

  lemma StartRunExtends(g: Graph, plan: Plan, st: States, order: seq<Name>, i: nat)
    requires i < |order|
    ensures var run := StartRun(g, plan, st, order, i);
            && StartRun(g, plan, st, order, i + 1)[..i] == run
            && StartRun(g, plan, st, order, i + 1)[i] == TryStart(g, plan, Replay(st, LogOf(run)), order[i])
  {
  }

  lemma TakeAll(c: seq<Attempt>, k: nat)
    requires k == |c|
    ensures c[..k] == c
  {
  }

  lemma TakeOfTake(c: seq<Attempt>, m: nat, k: nat)
    requires k <= m <= |c|
    ensures c[..m][..k] == c[..k]
  {
  }

  lemma {:induction false} StartRunPrefix(g: Graph, plan: Plan, st: States, order: seq<Name>, i: nat, k: nat,
                                          run: seq<Attempt>)
    requires k <= i <= |order| && run == StartRun(g, plan, st, order, i)
    ensures run[..k] == StartRun(g, plan, st, order, k)
  {
    if k < i {
      StartRunExtends(g, plan, st, order, i - 1);
      StartRunPrefix(g, plan, st, order, i - 1, k, run[..i - 1]);
      TakeOfTake(run, i - 1, k);
    } else {
      TakeAll(run, k);
    }
  }

  lemma StartRunAt(g: Graph, plan: Plan, st: States, order: seq<Name>, i: nat, k: nat, run: seq<Attempt>)
    requires k < i <= |order| && run == StartRun(g, plan, st, order, i)
    ensures run[k] == TryStart(g, plan, Replay(st, LogOf(run[..k])), order[k])
  {
    StartRunPrefix(g, plan, st, order, i, k, run);
    StartRunPrefix(g, plan, st, order, i, k + 1, run);
    StartRunExtends(g, plan, st, order, k);
    assert run[k] == run[..k + 1][k];
  }

  lemma StartRunGood(g: Graph, plan: Plan, st: States, order: seq<Name>, i: nat, run: seq<Attempt>)
    requires i <= |order| && run == StartRun(g, plan, st, order, i)
    ensures GoodAttempts(g, Startable(plan), st, order, run)
  {
    forall k | 0 <= k < |run|
      ensures GoodAttempt(g, Startable(plan), Replay(st, LogOf(run[..k])), order[k], run[k])
    {
      StartRunAt(g, plan, st, order, i, k, run);
      TryStartGood(g, plan, Replay(st, LogOf(run[..k])), order[k]);
    }
    GoodOneByOne(g, Startable(plan), st, order, run);
  }

  /** The states after the first round change by the one attempt. */
  lemma LastAttempt(st: States, attempts: seq<Attempt>)
    requires attempts != []
    ensures var k := |attempts| - 1;
            Replay(st, LogOf(attempts)) == Replay(Replay(st, LogOf(attempts[..k])), attempts[k].log)
  {
    ReplayConcat(st, LogOf(attempts[..|attempts| - 1]), attempts[|attempts| - 1].log);
  }

  /** However the attempts go, the running services stay closed, and no service comes or goes. */
  lemma {:induction false} AttemptsClosed(g: Graph, startable: set<Name>, st: States, order: seq<Name>,
                                          attempts: seq<Attempt>)
    requires |attempts| <= |order| && GoodAttempts(g, startable, st, order, attempts) && Elements(order) <= st.Keys
    ensures Replay(st, LogOf(attempts)).Keys == st.Keys
    ensures DependencyClosed(g, RunningIn(st)) ==> ClosedThroughout(g, st, LogOf(attempts))
  {
    if attempts != [] {
      var k := |attempts| - 1;
      AttemptsClosed(g, startable, st, order, attempts[..k]);
      LastAttempt(st, attempts);
      assert order[k] in Elements(order);
      if DependencyClosed(g, RunningIn(st)) {
        ClosedConcat(g, st, LogOf(attempts[..k]), attempts[k].log);
      }
    }
  }

  /** The services of a report, each list counted once. */
  function Counted(report: StartReport): multiset<Name> {
    multiset(report.started) + multiset(report.failed) + multiset(report.skipped)
  }

  /** Started, failed and skipped partition the services tried. */
  lemma {:induction false} ReportPartitions(names: seq<Name>, attempts: seq<Attempt>)
    requires |attempts| <= |names|
    ensures Counted(ReportOf(names, attempts)) == multiset(names[..|attempts|])
  {
    if attempts != [] {
      var k := |attempts| - 1;
      ReportPartitions(names, attempts[..k]);
      RecordCounts(ReportOf(names, attempts[..k]), attempts[k].result, names, k);
    }
  }

  lemma RecordCounts(report: StartReport, result: StartResult, names: seq<Name>, k: nat)
    requires k < |names| && Counted(report) == multiset(names[..k])
    ensures Counted(Record(report, result, names[k])) == multiset(names[..k + 1])
  {
    assert names[..k + 1] == names[..k] + [names[k]];
  }

  /** The report lists exactly the services announced as started, in the order of the announcements. */
  lemma {:induction false} ReportMatchesLog(g: Graph, startable: set<Name>, st: States, order: seq<Name>,
                                            attempts: seq<Attempt>)
    requires |attempts| <= |order| && GoodAttempts(g, startable, st, order, attempts)
    ensures StartedIn(LogOf(attempts)) == ReportOf(order, attempts).started
  {
    if attempts != [] {
      var k := |attempts| - 1;
      ReportMatchesLog(g, startable, st, order, attempts[..k]);
      StartedInConcat(LogOf(attempts[..k]), attempts[k].log);
    }
  }

  ghost predicate Fresh(st: States) {
    forall n :: n in st ==> st[n] == Created
  }

  /** What the rounds of a start-up from fresh services keep: later services stay fresh. */
  ghost predicate Proceeds(g: Graph, startable: set<Name>, order: seq<Name>, i: nat, st: States)
    requires i <= |order|
  {
    && st.Keys == g.nodes
    && Progress(g, startable, order, i, RunningIn(st))
    && (forall k :: i <= k < |order| ==> order[k] in st && st[order[k]] == Created)
  }

  lemma ProceedsFirst(g: Graph, startable: set<Name>, order: seq<Name>, st: States)
    requires IsStartOrder(g, order) && st.Keys == g.nodes && Fresh(st)
    ensures Proceeds(g, startable, order, 0, st)
  {
    assert RunningIn(st) == {};
    ProgressStarts(g, order, startable);
    assert forall k :: 0 <= k < |order| ==> order[k] in Elements(order);
  }

  lemma ProceedsNext(g: Graph, startable: set<Name>, order: seq<Name>, i: nat, st: States, a: Attempt)
    requires i < |order| && Proceeds(g, startable, order, i, st) && GoodAttempt(g, startable, st, order[i], a)
    ensures Proceeds(g, startable, order, i + 1, Replay(st, a.log))
  {
    ProgressRound(g, startable, order, i, RunningIn(st), a.result == Success);
  }

  lemma {:induction false} AttemptsProceed(g: Graph, startable: set<Name>, st: States, order: seq<Name>,
                                           attempts: seq<Attempt>)
    requires IsStartOrder(g, order) && st.Keys == g.nodes && Fresh(st)
    requires |attempts| <= |order| && GoodAttempts(g, startable, st, order, attempts)
    ensures Proceeds(g, startable, order, |attempts|, Replay(st, LogOf(attempts)))
  {
    if attempts == [] {
      ProceedsFirst(g, startable, order, st);
    } else {
      var k := |attempts| - 1;
      AttemptsProceed(g, startable, st, order, attempts[..k]);
      LastAttempt(st, attempts);
      ProceedsNext(g, startable, order, k, Replay(st, LogOf(attempts[..k])), attempts[k]);
    }
  }

  lemma ProgressRound(g: Graph, startable: set<Name>, order: seq<Name>, i: nat, running: set<Name>, starts: bool)
    requires i < |order| && Progress(g, startable, order, i, running)
    requires starts <==> order[i] in startable && Supported(g, order[i], running)
    ensures Progress(g, startable, order, i + 1, running + if starts then {order[i]} else {})
  {
    if starts {
      ProgressByStarting(g, startable, order, i, running);
    } else {
      ProgressBySkipping(g, startable, order, i, running);
      assert running + {} == running;
    }
  }

  // ---------------------------------------------------------------------------
  // A whole start-up
  // ---------------------------------------------------------------------------

  /** Throughout a start-up, whatever fails, the running services stay closed. */
  lemma StartRunClosed(g: Graph, plan: Plan, st: States, order: seq<Name>, i: nat)
    requires i <= |order| && Elements(order) <= st.Keys && DependencyClosed(g, RunningIn(st))
    ensures ClosedThroughout(g, st, LogOf(StartRun(g, plan, st, order, i)))
  {
    StartRunGood(g, plan, st, order, i, StartRun(g, plan, st, order, i));
    AttemptsClosed(g, Startable(plan), st, order, StartRun(g, plan, st, order, i));
  }

  /** The report of a start-up lists what was announced as started, in that order. */
  lemma StartReportMatches(g: Graph, plan: Plan, st: States, order: seq<Name>, i: nat)
    requires i <= |order|
    ensures var run := StartRun(g, plan, st, order, i); StartedIn(LogOf(run)) == ReportOf(order, run).started
  {
    StartRunGood(g, plan, st, order, i, StartRun(g, plan, st, order, i));
    ReportMatchesLog(g, Startable(plan), st, order, StartRun(g, plan, st, order, i));
  }

  /** A start-up of fresh services ends with exactly the started set running, each after its dependencies. */
  lemma StartRunReaches(g: Graph, plan: Plan, st: States, order: seq<Name>, n: nat)
    requires n == |order| && IsStartOrder(g, order) && st.Keys == g.nodes && Fresh(st) && Startable(plan) <= g.nodes
    ensures var running := RunningIn(Replay(st, LogOf(StartRun(g, plan, st, order, n))));
            IsStartedSet(g, Startable(plan), running) && RunningAfterDependencies(g, order, running)
  {
    var run := StartRun(g, plan, st, order, n);
    StartRunGood(g, plan, st, order, n, run);
    AttemptsProceed(g, Startable(plan), st, order, run);
    ProgressEnds(g, Startable(plan), order, n, RunningIn(Replay(st, LogOf(run))));
  }

  // ---------------------------------------------------------------------------
  // What a report says about the end
  // ---------------------------------------------------------------------------

  /** The result that a service ends with, told from the services running at the end. */
  ghost function ResultAt(g: Graph, plan: Plan, running: set<Name>, a: Name): StartResult {
    if a in running then Success
    else if a !in plan.allowed || !Supported(g, a, running) then Skipped
    else Failed
  }

  /** Some round tried d with this result. */
  ghost predicate Tried(order: seq<Name>, attempts: seq<Attempt>, d: Name, result: StartResult)
    requires |attempts| <= |order|
  {
    exists j :: 0 <= j < |attempts| && order[j] == d && attempts[j].result == result
  }

  lemma TriedLast(order: seq<Name>, attempts: seq<Attempt>, d: Name, result: StartResult)
    requires attempts != [] && |attempts| <= |order|
    ensures var k := |attempts| - 1;
            Tried(order, attempts, d, result)
            <==> Tried(order, attempts[..k], d, result) || (order[k] == d && attempts[k].result == result)
  {
    var k := |attempts| - 1;
    if Tried(order, attempts[..k], d, result) {
      var j :| 0 <= j < k && order[j] == d && attempts[..k][j].result == result;
      assert attempts[j] == attempts[..k][j];
    }
    if Tried(order, attempts, d, result) {
      var j :| 0 <= j < |attempts| && order[j] == d && attempts[j].result == result;
      assert j < k ==> attempts[..k][j] == attempts[j];
    }
  }

  /** Whatever runs was started in some round. */
  lemma {:induction false} RunningIsStarted(g: Graph, startable: set<Name>, st: States, order: seq<Name>,
                                            attempts: seq<Attempt>, d: Name)
    requires |attempts| <= |order| && GoodAttempts(g, startable, st, order, attempts)
    requires Elements(order) <= st.Keys && RunningIn(st) == {}
    ensures d in RunningIn(Replay(st, LogOf(attempts))) <==> Tried(order, attempts, d, Success)
  {
    if attempts != [] {
      var k := |attempts| - 1;
      RunningIsStarted(g, startable, st, order, attempts[..k], d);
      AttemptsClosed(g, startable, st, order, attempts[..k]);
      LastAttempt(st, attempts);
      TriedLast(order, attempts, d, Success);
      assert order[k] in Elements(order);
    }
  }

  /** The three lists of a report hold the services that had the three results. */
  lemma {:induction false} ReportLists(order: seq<Name>, attempts: seq<Attempt>, a: Name)
    requires |attempts| <= |order|
    ensures var report := ReportOf(order, attempts);
            && (a in report.started <==> Tried(order, attempts, a, Success))
            && (a in report.skipped <==> Tried(order, attempts, a, Skipped))
            && (a in report.failed <==> Tried(order, attempts, a, Failed))
  {
    if attempts != [] {
      ReportLists(order, attempts[..|attempts| - 1], a);
      TriedLast(order, attempts, a, Success);
      TriedLast(order, attempts, a, Skipped);
      TriedLast(order, attempts, a, Failed);
    }
  }

  /** A dependency that is down in the round of its dependent and running in the end leads back to the dependent. */
  lemma StartedTooLate(g: Graph, order: seq<Name>, attempts: seq<Attempt>, k: nat, d: Name)
    requires |attempts| <= |order| && k < |attempts| && IsStartOrder(g, order)
    requires Edge(g, order[k], d) && !Tried(order, attempts[..k], d, Success) && Tried(order, attempts, d, Success)
    ensures Reaches(g, d, order[k])
  {
    assert PlacedWell(g, order, k);
    TriedLater(order, attempts, k, d, Success);
  }

  lemma TriedLater(order: seq<Name>, attempts: seq<Attempt>, k: nat, d: Name, result: StartResult)
    requires |attempts| <= |order| && k < |attempts| && Distinct(order)
    requires !Tried(order, attempts[..k], d, result) && Tried(order, attempts, d, result)
    ensures d !in order[..k]
  {
    var j :| 0 <= j < |attempts| && order[j] == d && attempts[j].result == result;
    PlaceAfter(order, attempts, k, j, result);
    assert forall i :: 0 <= i < k ==> order[..k][i] == order[i] != order[j];
  }

  lemma PlaceAfter(order: seq<Name>, attempts: seq<Attempt>, k: nat, j: nat, result: StartResult)
    requires |attempts| <= |order| && k < |attempts| && j < |attempts| && attempts[j].result == result
    ensures Tried(order, attempts[..k], order[j], result) || j >= k
  {
    if j < k {
      assert attempts[..k][j] == attempts[j];
    }
  }

  lemma TriedOnce(order: seq<Name>, attempts: seq<Attempt>, k: nat, result: StartResult)
    requires |attempts| <= |order| && k < |attempts| && Distinct(order)
    ensures Tried(order, attempts, order[k], result) <==> attempts[k].result == result
  {
  }

  lemma TriedEarlier(order: seq<Name>, attempts: seq<Attempt>, k: nat, d: Name, result: StartResult)
    requires |attempts| <= |order| && k <= |attempts| && Tried(order, attempts[..k], d, result)
    ensures Tried(order, attempts, d, result)
  {
    var j :| 0 <= j < k && order[j] == d && attempts[..k][j].result == result;
    assert attempts[j] == attempts[..k][j];
  }

  /** What the dependencies of order[k] were in its round they are in the end, or else order[k] was started. */
  lemma SupportLasts(g: Graph, order: seq<Name>, attempts: seq<Attempt>, k: nat, before: set<Name>, end: set<Name>)
    requires |attempts| <= |order| && k < |attempts| && IsStartOrder(g, order) && DependencyClosed(g, end)
    requires forall d :: d in before <==> Tried(order, attempts[..k], d, Success)
    requires forall d :: d in end <==> Tried(order, attempts, d, Success)
    requires attempts[k].result != Success
    ensures Supported(g, order[k], before) <==> Supported(g, order[k], end)
  {
    TriedOnce(order, attempts, k, Success);
    forall d | Edge(g, order[k], d) ensures d in before <==> d in end {
      if d in before {
        TriedEarlier(order, attempts, k, d, Success);
      } else if d in end {
        StartedTooLate(g, order, attempts, k, d);
        ReachesInside(g, end, d, order[k]);
      }
    }
  }

  lemma RunningTried(g: Graph, plan: Plan, st: States, order: seq<Name>, i: nat, run: seq<Attempt>)
    requires i <= |order| && run == StartRun(g, plan, st, order, i)
    requires Elements(order) <= st.Keys && RunningIn(st) == {}
    ensures forall d :: d in RunningIn(Replay(st, LogOf(run))) <==> Tried(order, run, d, Success)
  {
    StartRunGood(g, plan, st, order, i, run);
    forall d ensures d in RunningIn(Replay(st, LogOf(run))) <==> Tried(order, run, d, Success) {
      RunningIsStarted(g, Startable(plan), st, order, run, d);
    }
  }

  lemma CreatedUntilTried(g: Graph, plan: Plan, st: States, order: seq<Name>, k: nat, run: seq<Attempt>)
    requires k < |order| && run == StartRun(g, plan, st, order, k)
    requires IsStartOrder(g, order) && st.Keys == g.nodes && Fresh(st)
    ensures var now := Replay(st, LogOf(run)); order[k] in now && now[order[k]] == Created
  {
    StartRunGood(g, plan, st, order, k, run);
    AttemptsProceed(g, Startable(plan), st, order, run);
  }

  lemma TryStartResult(g: Graph, plan: Plan, st: States, n: Name)
    requires n in st && st[n] == Created
    ensures var (a, ready) := (TryStart(g, plan, st, n), n in plan.allowed && Supported(g, n, RunningIn(st)));
            (a.result == Skipped <==> !ready) && (a.result == Success ==> ready)
  {
  }

  /** One round of a start-up of fresh services. */
  lemma ResultInRound(g: Graph, plan: Plan, st: States, order: seq<Name>, n: nat, k: nat, run: seq<Attempt>)
    requires n == |order| && IsStartOrder(g, order) && st.Keys == g.nodes && Fresh(st) && k < n
    requires run == StartRun(g, plan, st, order, n)
    ensures var before := RunningIn(Replay(st, LogOf(run[..k])));
            var ready := order[k] in plan.allowed && Supported(g, order[k], before);
            && (forall d :: d in before <==> Tried(order, run[..k], d, Success))
            && (run[k].result == Skipped <==> !ready) && (run[k].result == Success ==> ready)
  {
    StartRunPrefix(g, plan, st, order, n, k, run);
    StartRunAt(g, plan, st, order, n, k, run);
    CreatedUntilTried(g, plan, st, order, k, run[..k]);
    TryStartResult(g, plan, Replay(st, LogOf(run[..k])), order[k]);
    RunningTried(g, plan, st, order, k, run[..k]);
  }

  lemma ResultTold(g: Graph, plan: Plan, order: seq<Name>, attempts: seq<Attempt>, k: nat, before: set<Name>,
                   end: set<Name>)
    requires |attempts| <= |order| && k < |attempts| && IsStartOrder(g, order) && DependencyClosed(g, end)
    requires forall d :: d in before <==> Tried(order, attempts[..k], d, Success)
    requires forall d :: d in end <==> Tried(order, attempts, d, Success)
    requires var ready := order[k] in plan.allowed && Supported(g, order[k], before);
             (attempts[k].result == Skipped <==> !ready) && (attempts[k].result == Success ==> ready)
    ensures attempts[k].result == ResultAt(g, plan, end, order[k])
  {
    TriedOnce(order, attempts, k, Success);
    if attempts[k].result != Success {
      SupportLasts(g, order, attempts, k, before, end);
    }
  }

  lemma EndClosed(g: Graph, plan: Plan, st: States, order: seq<Name>, n: nat, run: seq<Attempt>)
    requires n == |order| && IsStartOrder(g, order) && st.Keys == g.nodes && Fresh(st)
    requires run == StartRun(g, plan, st, order, n)
    ensures DependencyClosed(g, RunningIn(Replay(st, LogOf(run))))
  {
    StartRunGood(g, plan, st, order, n, run);
    AttemptsProceed(g, Startable(plan), st, order, run);
  }

  /**
   After a start-up of fresh services the result of every service can be told from what runs in the end: what runs
   was started, what may not start by itself or has a dependency down was skipped, and only the rest has failed.
   */
  lemma ResultsAtEnd(g: Graph, plan: Plan, st: States, order: seq<Name>, n: nat, k: nat)
    requires n == |order| && IsStartOrder(g, order) && st.Keys == g.nodes && Fresh(st) && k < n
    ensures var run := StartRun(g, plan, st, order, n);
            run[k].result == ResultAt(g, plan, RunningIn(Replay(st, LogOf(run))), order[k])
  {
    var run := StartRun(g, plan, st, order, n);
    ResultInRound(g, plan, st, order, n, k, run);
    EndClosed(g, plan, st, order, n, run);
    assert RunningIn(st) == {};
    RunningTried(g, plan, st, order, n, run);
    ResultTold(g, plan, order, run, k, RunningIn(Replay(st, LogOf(run[..k]))), RunningIn(Replay(st, LogOf(run))));
  }

  lemma ReportAtEnd(g: Graph, plan: Plan, st: States, order: seq<Name>, n: nat, a: Name)
    requires n == |order| && IsStartOrder(g, order) && st.Keys == g.nodes && Fresh(st) && a in g.nodes
    ensures var run := StartRun(g, plan, st, order, n);
            var (report, result) := (ReportOf(order, run), ResultAt(g, plan, RunningIn(Replay(st, LogOf(run))), a));
            && (a in report.started <==> result == Success)
            && (a in report.skipped <==> result == Skipped)
            && (a in report.failed <==> result == Failed)
  {
    var run := StartRun(g, plan, st, order, n);
    assert a in Elements(order);
    var k :| 0 <= k < |order| && order[k] == a;
    ResultsAtEnd(g, plan, st, order, n, k);
    ReportLists(order, run, a);
    TriedOnce(order, run, k, Success);
    TriedOnce(order, run, k, Skipped);
    TriedOnce(order, run, k, Failed);
  }

  // ---------------------------------------------------------------------------
  // Shut-down
  // ---------------------------------------------------------------------------

  datatype Shutdown = Shutdown(report: StopReport, log: Log)

  /** One round: n is stopped if it still runs. */
  function StopRound(plan: Plan, st: States, before: Shutdown, n: Name): Shutdown {
    if n in RunningIn(Replay(st, before.log)) then
      Shutdown(RecordStop(before.report, n in plan.stops, n), before.log + StopLog(n, Running, n in plan.stops))
    else before
  }

  /** The rounds for the services from place k on, last first. */
  function StopRun(plan: Plan, st: States, order: seq<Name>, k: nat): Shutdown
    requires k <= |order|
    decreases |order| - k
  {
    if k == |order| then Shutdown(StopReport([], []), [])
    else StopRound(plan, st, StopRun(plan, st, order, k + 1), order[k])
  }

  /** The round for place k as the loop of stopAll takes it. */
  lemma StopRunRound(plan: Plan, st: States, order: seq<Name>, k: nat)
    requires k < |order|
    ensures var before, all, n := StopRun(plan, st, order, k + 1), StopRun(plan, st, order, k), order[k];
            var mid := Replay(st, before.log);
            if n in mid && mid[n] == Running then
              && all.report == RecordStop(before.report, n in plan.stops, n)
              && all.log == before.log + StopLog(n, Running, n in plan.stops)
              && Replay(st, all.log) == Replay(mid, StopLog(n, Running, n in plan.stops))
            else all == before
  {
    ReplayConcat(st, StopRun(plan, st, order, k + 1).log, StopLog(order[k], Running, order[k] in plan.stops));
  }

  lemma StopLogReplays(st: States, n: Name, stops: bool)
    requires n in st
    ensures Replay(st, StopLog(n, Running, stops)) == st[n := if stops then Stopped else Errored]
    ensures RunningIn(Replay(st, StopLog(n, Running, stops))) == RunningIn(st) - {n}
    ensures Replay(st, StopLog(n, Running, stops)[..1]) == st[n := Stopping]
  {
    ReplayTwo(st, ServiceStopping(n), if stops then ServiceStopped(n) else ServiceError(n));
    ReplayOne(st, ServiceStopping(n));
    assert StopLog(n, Running, stops)[..1] == [ServiceStopping(n)];
  }

  /** Every service that ran and has been reached is stopped or in error; nothing else has changed. */
  lemma {:induction false} StopRunStates(plan: Plan, st: States, order: seq<Name>, k: nat)
    requires k <= |order| && Distinct(order)
    ensures var end := Replay(st, StopRun(plan, st, order, k).log);
            && end.Keys == st.Keys
            && (forall n :: n in st ==>
                  end[n] == if n in Elements(order[k..]) && st[n] == Running
                            then (if n in plan.stops then Stopped else Errored) else st[n])
    decreases |order| - k
  {
    if k < |order| {
      StopRunStates(plan, st, order, k + 1);
      var before, n := StopRun(plan, st, order, k + 1), order[k];
      var mid := Replay(st, before.log);
      LastOf(order, k);
      if n in RunningIn(mid) {
        ReplayConcat(st, before.log, StopLog(n, Running, n in plan.stops));
        StopLogReplays(mid, n, n in plan.stops);
      }
    }
  }

  lemma LastOf(order: seq<Name>, k: nat)
    requires Distinct(order) && k < |order|
    ensures Elements(order[k..]) == Elements(order[k + 1..]) + {order[k]} && order[k] !in Elements(order[k + 1..])
  {
    assert order[k..] == [order[k]] + order[k + 1..];
    forall x | x in Elements(order[k..]) ensures x in Elements(order[k + 1..]) + {order[k]} {
    }
    forall x | x in Elements(order[k + 1..]) ensures x in Elements(order[k..]) {
      var i :| 0 <= i < |order[k + 1..]| && order[k + 1..][i] == x;
      assert order[k..][i + 1] == x;
    }
    assert order[k..][0] == order[k];
  }

  lemma StopRunRunning(plan: Plan, st: States, order: seq<Name>, k: nat)
    requires k <= |order| && Distinct(order)
    ensures RunningIn(Replay(st, StopRun(plan, st, order, k).log)) == RunningIn(st) - Elements(order[k..])
  {
    StopRunStates(plan, st, order, k);
  }

  lemma StopLogClosed(g: Graph, order: seq<Name>, st: States, k: nat, stops: bool)
    requires Distinct(order) && k < |order| && order[k] in st
    requires DependencyClosed(g, RunningIn(st)) && RunningAfterDependencies(g, order, RunningIn(st))
    requires forall j :: k < j < |order| ==> order[j] !in RunningIn(st)
    ensures ClosedThroughout(g, st, StopLog(order[k], Running, stops))
  {
    var n, log := order[k], StopLog(order[k], Running, stops);
    StopLogReplays(st, n, stops);
    StopLast(g, order, k, RunningIn(st));
    assert RunningIn(st[n := Stopping]) == RunningIn(st) - {n};
    assert log[..0] == [] && log[..2] == log;
  }

  lemma StopRoundClosed(g: Graph, plan: Plan, st: States, order: seq<Name>, k: nat, before: Shutdown)
    requires Distinct(order) && k < |order|
    requires ClosedThroughout(g, st, before.log) && RunningAfterDependencies(g, order, RunningIn(st))
    requires RunningIn(Replay(st, before.log)) == RunningIn(st) - Elements(order[k + 1..])
    ensures ClosedThroughout(g, st, StopRound(plan, st, before, order[k]).log)
  {
    var mid, stops := Replay(st, before.log), order[k] in plan.stops;
    if order[k] in RunningIn(mid) {
      forall j | k < j < |order| ensures order[j] !in RunningIn(mid) {
        assert order[k + 1..][j - k - 1] == order[j];
      }
      StopLogClosed(g, order, mid, k, stops);
      ClosedConcat(g, st, before.log, StopLog(order[k], Running, stops));
    }
  }

  /** Throughout a shut-down, whatever fails, the running services stay closed. */
  lemma {:induction false} StopRunClosed(g: Graph, plan: Plan, st: States, order: seq<Name>, k: nat)
    requires k <= |order| && Distinct(order)
    requires DependencyClosed(g, RunningIn(st)) && RunningAfterDependencies(g, order, RunningIn(st))
    ensures ClosedThroughout(g, st, StopRun(plan, st, order, k).log)
    decreases |order| - k
  {
    if k < |order| {
      StopRunClosed(g, plan, st, order, k + 1);
      StopRunRunning(plan, st, order, k + 1);
      StopRoundClosed(g, plan, st, order, k, StopRun(plan, st, order, k + 1));
    }
  }

  /** The services announced as stopping, in the order of the announcements. */
  function StoppingIn(log: Log): seq<Name> {
    if log == [] then []
    else StoppingIn(log[..|log| - 1])
         + if log[|log| - 1].ServiceStopping? then [log[|log| - 1].service] else []
  }

  lemma StoppingInTwo(a: Log, n: Name, stops: bool)
    ensures StoppingIn(a + StopLog(n, Running, stops)) == StoppingIn(a) + [n]
  {
    var log := a + StopLog(n, Running, stops);
    assert log[..|log| - 1] == a + [ServiceStopping(n)];
    assert log[..|log| - 1][..|a|] == a;
  }

  /** The members of a set in the reverse of an order. */
  function Backwards(order: seq<Name>, running: set<Name>): seq<Name> {
    if order == [] then []
    else Backwards(order[1..], running) + if order[0] in running then [order[0]] else []
  }

  /** Services stop in the reverse of the start order, each that ran exactly once. */
  lemma {:induction false} StopRunBackwards(plan: Plan, st: States, order: seq<Name>, k: nat)
    requires k <= |order| && Distinct(order)
    ensures StoppingIn(StopRun(plan, st, order, k).log) == Backwards(order[k..], RunningIn(st))
    decreases |order| - k
  {
    if k < |order| {
      StopRunBackwards(plan, st, order, k + 1);
      StopRunRunning(plan, st, order, k + 1);
      LastOf(order, k);
      assert order[k..][1..] == order[k + 1..];
      StoppingInTwo(StopRun(plan, st, order, k + 1).log, order[k], order[k] in plan.stops);
    }
  }

  /** The report lists the services that stopped and those whose hook failed, in the same order. */
  lemma {:induction false} StopReportMatches(plan: Plan, st: States, order: seq<Name>, k: nat)
    requires k <= |order| && Distinct(order)
    ensures var r := StopRun(plan, st, order, k).report;
            && r.stopped == Backwards(order[k..], RunningIn(st) * plan.stops)
            && r.failed == Backwards(order[k..], RunningIn(st) - plan.stops)
    decreases |order| - k
  {
    if k < |order| {
      StopReportMatches(plan, st, order, k + 1);
      StopRunRunning(plan, st, order, k + 1);
      LastOf(order, k);
      assert order[k..][1..] == order[k + 1..];
    }
  }

  /**
   A start-up of fresh services and the shut-down after it, whatever fails in either: after every
   announcement of the two the running services are closed, and at the end none runs.
   */
  lemma WholeRunClosed(g: Graph, plan: Plan, st: States, order: seq<Name>, n: nat)
    requires n == |order| && IsStartOrder(g, order) && st.Keys == g.nodes && Fresh(st) && Startable(plan) <= g.nodes
    ensures var up := LogOf(StartRun(g, plan, st, order, n));
            var down := StopRun(plan, Replay(st, up), order, 0).log;
            ClosedThroughout(g, st, up + down) && RunningIn(Replay(st, up + down)) == {}
  {
    assert RunningIn(st) == {};
    var run := StartRun(g, plan, st, order, n);
    StartRunGood(g, plan, st, order, n, run);
    AttemptsClosed(g, Startable(plan), st, order, run);
    StartRunReaches(g, plan, st, order, n);
    StoppedAfter(g, plan, st, order, LogOf(run));
  }

  lemma StoppedAfter(g: Graph, plan: Plan, st: States, order: seq<Name>, up: Log)
    requires IsStartOrder(g, order) && ClosedThroughout(g, st, up) && Replay(st, up).Keys == g.nodes
    requires RunningAfterDependencies(g, order, RunningIn(Replay(st, up)))
    ensures var down := StopRun(plan, Replay(st, up), order, 0).log;
            ClosedThroughout(g, st, up + down) && RunningIn(Replay(st, up + down)) == {}
  {
    var mid := Replay(st, up);
    StopRunClosed(g, plan, mid, order, 0);
    StopRunRunning(plan, mid, order, 0);
    assert order[0..] == order;
    ClosedConcat(g, st, up, StopRun(plan, mid, order, 0).log);
    ReplayConcat(st, up, StopRun(plan, mid, order, 0).log);
  }
}
