/**
 core/routing/layer.js, RoutingLayer: receiving a message, delivering it or forwarding it one hop.
 */
module RoutingLayers {
  import opened Results
  import opened RoutedMessages
  import opened SeenCache

  const ROUTE_EXPIRY: int := 3600000

  datatype Route = Route(nextHop: string, metric: int, hops: seq<string>, expiresAt: int)

  /** A metric of 0 counts as absent. */
  function NewRoute(nextHop: string, metric: Option<int>, hops: Option<seq<string>>, expiresAt: Option<int>,
                    expiry: int, now: nat): Route
  {
    Route(nextHop,
          if metric.None? || metric.value == 0 then 1 else metric.value,
          if hops.None? then [] else hops.value,
          if expiresAt.None? then now + expiry else expiresAt.value)
  }

  /** A route replaces the one in place unless that one has the smaller metric. */
  predicate Kept(table: map<string, Route>, destination: string, route: Route) {
    destination in table && table[destination].metric < route.metric
  }

  /** The state of a node that decides what it does with a message. */
  datatype Node = Node(
    nodeId: string, table: map<string, Route>, seen: Seen, maxSeenAge: int,
    enableForwarding: bool, requireSignatures: bool, identity: Option<Identity>)

  /** What one call reads from outside: clocks, a fresh id and the keys it can look up. */
  datatype Reading = Reading(freshId: string, at: nat, markedAt: nat, purgedAt: nat, now: nat, verifier: Verifier)

  predicate Ordered(e: Reading) {
    e.at <= e.markedAt <= e.purgedAt <= e.now
  }

  datatype Action =
    | Duplicate | Expired | Invalid | Delivered | NoRoute | Dropped
    | Forwarded(nextHop: string)

  function GetRoute(table: map<string, Route>, destination: string, now: nat): Option<Route> {
    if destination in table && now <= table[destination].expiresAt then Some(table[destination]) else None
  }

  function AddedHop(n: Node, m: Message, now: nat): Message {
    var hopped := WithHop(m, n.nodeId, now);
    if n.identity.Some? && n.requireSignatures then WithSignature(hopped, n.identity.value, now) else hopped
  }

  /** Sending a routed message needs a route; the other kinds do not look for one. */
  predicate CanSend(n: Node, kind: string, to: string, now: nat) {
    kind == ROUTED ==> GetRoute(n.table, to, now).Some?
  }

  /** A routed message carries the hop list of its route; the other kinds only what they were given. */
  function SentMetadata(n: Node, kind: string, to: string, metadata: Option<Metadata>, now: nat): Metadata
    requires CanSend(n, kind, to, now)
  {
    if kind == ROUTED then MetadataOr(metadata).(route := Some(n.table[to].hops)) else MetadataOr(metadata)
  }

  function NewMessage(n: Node, kind: string, to: string, payload: string, ttl: Option<int>,
                      metadata: Option<Metadata>, freshId: string, now: nat): Message
    requires CanSend(n, kind, to, now)
  {
    Message(freshId, TextOr(Some(kind), ROUTED), n.nodeId, to, payload, ReadTtl(ttl), [], [], now,
            SentMetadata(n, kind, to, metadata, now))
  }

  /** The decision of `receive`, and the message that leaves if it is forwarded. */
  function Decide(n: Node, m: Message, e: Reading): (Action, Option<Message>) {
    if IsSeen(n.seen, m.id, e.at, n.maxSeenAge) then (Duplicate, None)
    else if m.ttl <= 0 then (Expired, None)
    else if n.requireSignatures && m.signatures != [] && !SignaturesValid(m, e.verifier) then (Invalid, None)
    else if IsFor(m, n.nodeId) then (Delivered, None)
    else if !n.enableForwarding || !ShouldForward(m) then (Dropped, None)
    else
      var route := GetRoute(n.table, m.to, e.now);
      if route.None? then (NoRoute, None)
      else (Forwarded(route.value.nextHop), Some(AddedHop(n, m, e.now)))
  }

  /** The outcomes one by one. */
  lemma Outcomes(n: Node, m: Message, e: Reading)
    ensures var seen := m.id in n.seen && n.seen[m.id] != 0 && e.at - n.seen[m.id] <= n.maxSeenAge;
            var live := !seen && m.ttl > 0;
            var valid := live && (n.requireSignatures && m.signatures != [] ==> SignaturesValid(m, e.verifier));
            var passing := valid && m.to != n.nodeId && m.to != "*";
            var route := n.enableForwarding && |m.hops| < 15;
            var known := m.to in n.table && e.now <= n.table[m.to].expiresAt;
            var (action, out) := Decide(n, m, e);
            && (action == Duplicate <==> seen)
            && (action == Expired <==> !seen && !live)
            && (action == Invalid <==> live && !valid)
            && (action == Delivered <==> valid && !passing)
            && (action == Dropped <==> passing && !route)
            && (action == NoRoute <==> passing && route && !known)
            && (action.Forwarded? <==> passing && route && known)
            && (action.Forwarded? ==> action.nextHop == n.table[m.to].nextHop)
            && (out.Some? <==> action.Forwarded?)
  {
  }

  /** The whole effect of receiving one message: the cache is the only state that changes. */
  function AfterReceive(n: Node, w: Wire, e: Reading): Node {
    var receipt := Receipt(FromWire(w, e.freshId).id, e.at, e.markedAt, e.purgedAt);
    n.(seen := SeenCache.Receive(n.seen, receipt, n.maxSeenAge))
  }

  class RoutingLayer {
    const nodeId: string
    const maxSeenAge: int
    const defaultExpiry: int
    const enableForwarding: bool
    const requireSignatures: bool
    const identity: Option<Identity>
    var table: map<string, Route>
    var seen: Seen

    constructor (nodeId: string, maxSeenAge: int, enableForwarding: bool, requireSignatures: bool,
                 identity: Option<Identity>, defaultExpiry: int)
      ensures this.defaultExpiry == if defaultExpiry == 0 then 3600000 else defaultExpiry
      ensures State() == Node(nodeId, map[], map[], if maxSeenAge == 0 then 300000 else maxSeenAge,
                              enableForwarding, requireSignatures, identity)
    {
      this.nodeId := nodeId;
      this.maxSeenAge := if maxSeenAge == 0 then 300000 else maxSeenAge;
      this.enableForwarding, this.requireSignatures := enableForwarding, requireSignatures;
      this.identity := identity;
      this.defaultExpiry := if defaultExpiry == 0 then ROUTE_EXPIRY else defaultExpiry;
      table, seen := map[], map[];
    }

    function State(): Node
      reads this
    {
      Node(nodeId, table, seen, maxSeenAge, enableForwarding, requireSignatures, identity)
    }

    method AddRoute(destination: string, nextHop: string, metric: Option<int>, hops: Option<seq<string>>,
                    expiresAt: Option<int>, now: nat) returns (entry: Route)
      modifies `table
      ensures var route := NewRoute(nextHop, metric, hops, expiresAt, defaultExpiry, now);
              if Kept(old(table), destination, route)
              then table == old(table) && entry == table[destination]
              else table == old(table)[destination := route] && entry == route
    {
      entry := NewRoute(nextHop, metric, hops, expiresAt, defaultExpiry, now);
      if destination in table && table[destination].metric < entry.metric {
        return table[destination];
      }
      table := table[destination := entry];
    }

    method RemoveRoute(destination: string) returns (removed: bool)
      modifies `table
      ensures removed == (destination in old(table)) && table == old(table) - {destination}
    {
      removed := destination in table;
      table := table - {destination};
    }

    /** `sendDirect`, `sendRouted`, `broadcast` and `flood`. */
    method Send(kind: string, to: string, payload: string, ttl: Option<int>, metadata: Option<Metadata>,
                freshId: string, now: nat) returns (r: Result<RoutedMessage>)
      ensures r.Ok? <==> CanSend(State(), kind, to, now)
      ensures r.Ok? ==> fresh(r.value)
      ensures r.Ok? ==> var m := NewMessage(State(), kind, to, payload, ttl, metadata, freshId, now);
                        r.value.Value() == AddedHop(State(), m, now)
      ensures r.Ok? ==> && r.value.id == freshId && r.value.from == nodeId && r.value.to == to
                        && r.value.payload == payload && r.value.hops == [Hop(nodeId, now)]
                        && r.value.ttl == (if ttl.None? || ttl.value == 0 then 9 else ttl.value - 1)
                        && |r.value.signatures| == if identity.Some? && requireSignatures then 1 else 0
    {
      var sent := MetadataOr(metadata);
      if kind == ROUTED {
        var route := GetRoute(table, to, now);
        if route.None? {
          return Err("No route to destination: " + to);
        }
        sent := sent.(route := Some(route.value.hops));
      }
      var message := new RoutedMessage(None, Some(kind), nodeId, to, payload, ttl, None, Some(sent), freshId, now);
      var added := message.AddHop(nodeId, now);
      assert added.Ok?;
      if identity.Some? && requireSignatures {
        message.AddSignature(identity.value, now);
      }
      return Ok(message);
    }

    method CheckSeen(id: string, now: nat) returns (r: bool)
      modifies `seen
      ensures r == IsSeen(old(seen), id, now, maxSeenAge)
      ensures seen == AfterLookup(old(seen), id, now, maxSeenAge)
    {
      if id !in seen || seen[id] == 0 {
        return false;
      }
      if now - seen[id] > maxSeenAge {
        seen := seen - {id};
        return false;
      }
      return true;
    }

    method MarkSeen(id: string, now: nat, purgedAt: nat)
      modifies `seen
      ensures seen == AfterMark(old(seen), id, now, purgedAt, maxSeenAge)
      ensures var marked := old(seen)[id := now];
              |marked| <= 10000 ==> seen == marked
      ensures var marked := old(seen)[id := now];
              |marked| > 10000 ==> forall k :: k in seen <==> k in marked && purgedAt - marked[k] <= maxSeenAge
    {
      seen := seen[id := now];
      if |seen| > CLEANUP_SIZE {
        ghost var marked := seen;
        var left := seen.Keys;
        while left != {}
          invariant left <= seen.Keys <= marked.Keys
          invariant forall k <- seen :: seen[k] == marked[k]
          invariant forall k <- marked.Keys - left :: k in seen <==> purgedAt - marked[k] <= maxSeenAge
        {
          var k :| k in left;
          left := left - {k};
          if purgedAt - seen[k] > maxSeenAge {
            seen := seen - {k};
          }
        }
        assert seen == Purged(marked, purgedAt, maxSeenAge);
      }
    }

    /** `travels` is the message object as forwarding leaves it, which the source does not hand out. */
    method Receive(data: Wire, e: Reading) returns (action: Action, travels: Option<Message>)
      modifies `seen
      ensures State() == AfterReceive(old(State()), data, e)
      ensures (action, travels) == Decide(old(State()), FromWire(data, e.freshId), e)
    {
      var message := RoutedMessage.FromJson(data, e.freshId, e.at);
      var duplicate := CheckSeen(message.id, e.at);
      if duplicate {
        return Duplicate, None;
      }
      MarkSeen(message.id, e.markedAt, e.purgedAt);
      if message.ttl <= 0 {
        return Expired, None;
      }
      if requireSignatures && |message.signatures| > 0 {
        var valid := VerifySignatures(message.Value(), e.verifier);
        if !valid {
          return Invalid, None;
        }
      }
      if IsFor(message.Value(), nodeId) {
        return Delivered, None;
      }
      if enableForwarding && ShouldForward(message.Value()) {
        action, travels := Forward(message, e.now);
        return;
      }
      return Dropped, None;
    }

    /** `shouldForward` has left room for one more hop, so `addHop` does not throw. */
    method Forward(message: RoutedMessage, now: nat) returns (action: Action, travels: Option<Message>)
      requires ShouldForward(message.Value())
      modifies message
      ensures var m := old(message.Value());
              var route := GetRoute(table, m.to, now);
              (action, travels) == if route.None? then (NoRoute, None)
                                   else (Forwarded(route.value.nextHop), Some(AddedHop(State(), m, now)))
    {
      var route := GetRoute(table, message.to, now);
      if route.None? {
        return NoRoute, None;
      }
      var added := message.AddHop(nodeId, now);
      assert added.Ok?;
      if identity.Some? && requireSignatures {
        message.AddSignature(identity.value, now);
      }
      return Forwarded(route.value.nextHop), Some(message.Value());
    }
  }

  // ---------------------------------------------------------------------------
  // Which route is kept
  // ---------------------------------------------------------------------------

  /** One call of `addRoute`. */
  datatype Addition = Addition(destination: string, route: Route)

  function AfterAddition(table: map<string, Route>, a: Addition): map<string, Route> {
    if Kept(table, a.destination, a.route) then table else table[a.destination := a.route]
  }

  function AfterAdditions(adds: seq<Addition>): map<string, Route> {
    if adds == [] then map[] else AfterAddition(AfterAdditions(adds[..|adds| - 1]), adds[|adds| - 1])
  }

  /** Among the routes to a destination, the k-th addition is one of the best and the last of those. */
  ghost predicate LastOfTheBest(adds: seq<Addition>, destination: string, k: nat) {
    && k < |adds| && adds[k].destination == destination
    && forall i :: 0 <= i < |adds| && adds[i].destination == destination ==>
         if i <= k then adds[k].route.metric <= adds[i].route.metric else adds[k].route.metric < adds[i].route.metric
  }

  /** However routes are added, the table holds for every destination the last added of those with the least metric. */
  lemma {:induction false} BestRouteKept(adds: seq<Addition>, destination: string) returns (k: int)
    ensures k < 0 ==> destination !in AfterAdditions(adds) && forall a <- adds :: a.destination != destination
    ensures k >= 0 ==> LastOfTheBest(adds, destination, k)
                       && destination in AfterAdditions(adds) && AfterAdditions(adds)[destination] == adds[k].route
  {
    k := -1;
    if adds != [] {
      var n := |adds| - 1;
      k := BestRouteKept(adds[..n], destination);
      assert adds == adds[..n] + [adds[n]];
      if adds[n].destination == destination && !Kept(AfterAdditions(adds[..n]), destination, adds[n].route) {
        k := n;
      }
    }
  }

  /** A kept route is used up to its expiry, which is by default the layer's expiry after it was added. */
  lemma RouteLives(table: map<string, Route>, destination: string, nextHop: string, expiry: int, added: nat, now: nat)
    requires destination !in table
    ensures var a := Addition(destination, NewRoute(nextHop, None, None, None, expiry, added));
            var found := GetRoute(AfterAddition(table, a), destination, now);
            (found.Some? <==> now <= added + expiry) && (found.Some? ==> found.value.nextHop == nextHop)
  {
  }
}
