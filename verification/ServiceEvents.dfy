/**
 What a service manager announces on the event bus (core/eventbus/index.js), and the service states that a
 run of announcements leads to. A service announces every change into or out of running right after making it,
 so the announcements record what ran when; only the step of `init` to ready goes unannounced.
 */
module ServiceEvents {
  import opened StartOrder

  datatype ServiceState =
    Created | Initializing | Ready | Starting | Running | Stopping | Stopped | Errored | Crashed

  datatype Event =
    | ServiceInit(service: Name)
    | ServiceStarting(service: Name)
    | ServiceStarted(service: Name)
    | ServiceStopping(service: Name)
    | ServiceStopped(service: Name)
    | ServiceError(service: Name)
    | ServiceRegistered(service: Name)
    | CoreStarted(services: nat, failed: nat)
    | CoreStopping(services: nat)

  type Log = seq<Event>

  class EventBus {
    var log: Log

    constructor ()
      ensures log == []
    {
      log := [];
    }

    method Emit(e: Event)
      modifies `log
      ensures log == old(log) + [e]
    {
      log := log + [e];
    }
  }

  // ---------------------------------------------------------------------------
  // Replaying announcements
  // ---------------------------------------------------------------------------

  type States = map<Name, ServiceState>

  function RunningIn(st: States): set<Name> {
    set n | n in st && st[n] == Running
  }

  function Apply(st: States, e: Event): States {
    match e
    case ServiceInit(n) => st[n := Initializing]
    case ServiceStarting(n) => st[n := Starting]
    case ServiceStarted(n) => st[n := Running]
    case ServiceStopping(n) => st[n := Stopping]
    case ServiceStopped(n) => st[n := Stopped]
    case ServiceError(n) => st[n := Errored]
    case _ => st
  }

  /** The states after a run of announcements. */
  function Replay(st: States, log: Log): States {
    if log == [] then st else Apply(Replay(st, log[..|log| - 1]), log[|log| - 1])
  }

  lemma {:induction false} ReplayConcat(st: States, a: Log, b: Log)
    ensures Replay(st, a + b) == Replay(Replay(st, a), b)
  {
    if b == [] {
      assert a + b == a;
    } else {
      ReplayConcat(st, a, b[..|b| - 1]);
      assert (a + b)[..|a + b| - 1] == a + b[..|b| - 1];
    }
  }

  lemma Appended(a: Log, b: Log, c: Log)
    ensures (a + b) + c == a + (b + c)
  {
  }

  lemma ReplayOne(st: States, e: Event)
    ensures Replay(st, [e]) == Apply(st, e)
  {
    assert [e][..0] == [];
  }

  lemma ReplayTwo(st: States, d: Event, e: Event)
    ensures Replay(st, [d, e]) == Apply(Apply(st, d), e)
  {
    ReplayOne(st, d);
    assert [d, e][..1] == [d];
  }

  lemma ReplayThree(st: States, c: Event, d: Event, e: Event)
    ensures Replay(st, [c, d, e]) == Apply(Apply(Apply(st, c), d), e)
  {
    ReplayTwo(st, c, d);
    assert [c, d, e][..2] == [c, d];
  }
}
