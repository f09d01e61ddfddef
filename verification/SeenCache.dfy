/**
 core/routing/layer.js, the duplicate cache of RoutingLayer: `_isSeen` and `_markSeen` with their purges,
 against the full history of accepted messages.
 */
module SeenCache {
  const CLEANUP_SIZE: nat := 10000

  type Seen = map<string, nat>

  /** A time of 0 is falsy, so an entry marked at 0 counts as absent. */
  predicate IsSeen(seen: Seen, id: string, now: nat, maxAge: int) {
    id in seen && seen[id] != 0 && now - seen[id] <= maxAge
  }

  /** What a lookup leaves behind: an entry found too old is deleted. */
  function AfterLookup(seen: Seen, id: string, now: nat, maxAge: int): Seen {
    if id in seen && seen[id] != 0 && now - seen[id] > maxAge then seen - {id} else seen
  }

  function Purged(seen: Seen, now: nat, maxAge: int): (r: Seen)
    ensures forall id :: id in r <==> id in seen && now - seen[id] <= maxAge
    ensures forall id <- r :: r[id] == seen[id]
  {
    map id | id in seen && now - seen[id] <= maxAge :: seen[id]
  }

  function AfterMark(seen: Seen, id: string, now: nat, purgedAt: nat, maxAge: int): Seen {
    var marked := seen[id := now];
    if |marked| > CLEANUP_SIZE then Purged(marked, purgedAt, maxAge) else marked
  }

  /** One received message: the clock at the lookup, at the mark and at the purge that may follow. */
  datatype Receipt = Receipt(id: string, at: nat, markedAt: nat, purgedAt: nat)

  /** The clock never runs backwards. */
  predicate Monotone(run: seq<Receipt>) {
    && (forall r <- run :: r.at <= r.markedAt <= r.purgedAt)
    && (forall i, j :: 0 <= i < j < |run| ==> run[i].purgedAt <= run[j].at)
  }

  function Receive(seen: Seen, r: Receipt, maxAge: int): Seen {
    var looked := AfterLookup(seen, r.id, r.at, maxAge);
    if IsSeen(seen, r.id, r.at, maxAge) then looked else AfterMark(looked, r.id, r.markedAt, r.purgedAt, maxAge)
  }

  /** The cache after a run that starts from an empty one. */
  function Cache(run: seq<Receipt>, maxAge: int): Seen {
    if run == [] then map[]
    else Receive(Cache(run[..|run| - 1], maxAge), run[|run| - 1], maxAge)
  }

  /** Receipt j passes the duplicate check. */
  predicate Accepted(run: seq<Receipt>, maxAge: int, j: nat)
    requires j < |run|
  {
    !IsSeen(Cache(run[..j], maxAge), run[j].id, run[j].at, maxAge)
  }

  /** An earlier accepted receipt of the same id is still within its age at time `now`. */
  ghost predicate RemembersAt(run: seq<Receipt>, maxAge: int, id: string, now: nat, i: nat)
    requires i < |run|
  {
    Accepted(run, maxAge, i) && run[i].id == id && run[i].markedAt != 0 && now - run[i].markedAt <= maxAge
  }

  ghost predicate Remembers(run: seq<Receipt>, maxAge: int, id: string, now: nat) {
    exists i: nat :: i < |run| && RemembersAt(run, maxAge, id, now, i)
  }

  /** The last point of time a run has reached. */
  function Clock(run: seq<Receipt>): nat {
    if run == [] then 0 else run[|run| - 1].purgedAt
  }

  lemma AcceptedInPrefix(run: seq<Receipt>, maxAge: int, n: nat, i: nat)
    requires i < n <= |run|
    ensures Accepted(run[..n], maxAge, i) == Accepted(run, maxAge, i)
  {
    assert run[..n][..i] == run[..i];
  }

  lemma MonotonePrefix(run: seq<Receipt>, n: nat)
    requires n <= |run| && Monotone(run)
    ensures Monotone(run[..n])
  {
    forall r | r in run[..n] ensures r.at <= r.markedAt <= r.purgedAt {
      assert r in run;
    }
  }

  lemma RemembersStep(run: seq<Receipt>, maxAge: int, id: string, now: nat)
    requires run != []
    ensures Remembers(run, maxAge, id, now)
       <==> Remembers(run[..|run| - 1], maxAge, id, now) || RemembersAt(run, maxAge, id, now, |run| - 1)
  {
    var n := |run| - 1;
    forall i: nat | i < n
      ensures RemembersAt(run[..n], maxAge, id, now, i) == RemembersAt(run, maxAge, id, now, i)
    {
      AcceptedInPrefix(run, maxAge, n, i);
    }
  }

  /**
   Purging changes no answer: at any time from the end of the run on, an id is reported as seen exactly
   when some accepted receipt of it is at most maxAge old, with nothing forgotten.
   */
  lemma {:induction false} CacheIsExact(run: seq<Receipt>, maxAge: int, id: string, now: nat)
    requires Monotone(run) && Clock(run) <= now
    ensures IsSeen(Cache(run, maxAge), id, now, maxAge) <==> Remembers(run, maxAge, id, now)
    decreases |run|
  {
    if run == [] {
    } else {
      var n := |run| - 1;
      var before, r := run[..n], run[n];
      MonotonePrefix(run, n);
      assert r in run;
      assert Clock(before) <= r.at;
      CacheIsExact(before, maxAge, id, now);
      RemembersStep(run, maxAge, id, now);
      ReceiveStep(Cache(before, maxAge), r, maxAge, id, now);
      if !Accepted(run, maxAge, n) || r.id != id {
      } else if r.markedAt == 0 {
        NothingBeforeZero(before, maxAge, id, now, r.markedAt);
      } else if now - r.markedAt > maxAge {
        OlderToo(before, maxAge, id, now, r.markedAt);
      }
    }
  }

  /** One receipt changes the later answers for its own id only, and only by marking it. */
  lemma ReceiveStep(seen: Seen, r: Receipt, maxAge: int, id: string, now: nat)
    requires r.at <= r.markedAt <= r.purgedAt <= now
    ensures IsSeen(Receive(seen, r, maxAge), id, now, maxAge)
       <==> if id == r.id && !IsSeen(seen, id, r.at, maxAge)
            then r.markedAt != 0 && now - r.markedAt <= maxAge
            else IsSeen(seen, id, now, maxAge)
  {
  }

  lemma NothingBeforeZero(run: seq<Receipt>, maxAge: int, id: string, now: nat, limit: nat)
    requires Monotone(run) && Clock(run) <= limit == 0
    ensures !Remembers(run, maxAge, id, now)
  {
    forall i: nat | i < |run| ensures run[i].markedAt == 0 {
      MarkedBefore(run, i);
    }
  }

  lemma OlderToo(run: seq<Receipt>, maxAge: int, id: string, now: nat, limit: nat)
    requires Monotone(run) && Clock(run) <= limit && now - limit > maxAge
    ensures !Remembers(run, maxAge, id, now)
  {
    forall i: nat | i < |run| ensures run[i].markedAt <= limit {
      MarkedBefore(run, i);
    }
  }

  lemma MarkedBefore(run: seq<Receipt>, i: nat)
    requires Monotone(run) && i < |run|
    ensures run[i].markedAt <= Clock(run)
  {
    assert run[i] in run && run[|run| - 1] in run;
  }

  /** Two accepted receipts of one id are more than maxAge apart (unless the first was at time 0). */
  lemma AcceptedApart(run: seq<Receipt>, maxAge: int, i: nat, j: nat)
    requires Monotone(run) && i < j < |run| && run[i].id == run[j].id
    requires Accepted(run, maxAge, i) && Accepted(run, maxAge, j) && run[i].markedAt != 0
    ensures run[j].at - run[i].markedAt > maxAge
  {
    MonotonePrefix(run, j);
    assert Clock(run[..j]) <= run[j].at;
    CacheIsExact(run[..j], maxAge, run[j].id, run[j].at);
    AcceptedInPrefix(run, maxAge, j, i);
    assert !RemembersAt(run[..j], maxAge, run[j].id, run[j].at, i);
  }
}
