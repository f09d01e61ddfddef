/**
 core/routing/layer.js as a network: any number of nodes with arbitrary and changing tables, and a medium
 that loses, duplicates, delays and misdelivers whatever was put on it.
 */
module RoutingNetwork {
  import opened Results
  import opened RoutedMessages
  import opened SeenCache
  import opened RoutingLayers

  /** A message on the wire: who put it there and when, and which packet it forwards, if any. */
  datatype Packet = Packet(message: Message, sender: string, markedAt: nat, parent: Option<nat>, originTtl: int)

  datatype Network = Network(clock: nat, nodes: map<string, Node>, packets: seq<Packet>)

  datatype Event =
    | Send(node: string, kind: string, to: string, payload: string, ttl: Option<int>, metadata: Option<Metadata>,
           freshId: string, now: nat)
    | Deliver(node: string, packet: nat, reading: Reading)
    | Reroute(node: string, table: map<string, Route>)

  predicate Enabled(net: Network, e: Event) {
    && e.node in net.nodes
    && match e
       case Send(node, kind, to, _, _, _, freshId, now) =>
         net.clock <= now && freshId != "" && CanSend(net.nodes[node], kind, to, now)
       case Deliver(_, packet, reading) =>
         packet < |net.packets| && net.clock <= reading.at && Ordered(reading)
       case Reroute(_, _) => true
  }

  function Step(net: Network, e: Event): Network
    requires Enabled(net, e)
  {
    var n := net.nodes[e.node];
    match e
    case Send(_, kind, to, payload, ttl, metadata, freshId, now) =>
      var m := AddedHop(n, NewMessage(n, kind, to, payload, ttl, metadata, freshId, now), now);
      net.(clock := now, packets := net.packets + [Packet(m, e.node, now, None, ReadTtl(ttl))])
    case Deliver(node, packet, reading) =>
      var w := ToWire(net.packets[packet].message);
      var out := Decide(n, FromWire(w, reading.freshId), reading).1;
      var sent := if out.None? then []
                  else [Packet(out.value, node, reading.markedAt, Some(packet), net.packets[packet].originTtl)];
      Network(reading.now, net.nodes[node := AfterReceive(n, w, reading)], net.packets + sent)
    case Reroute(node, table) =>
      net.(nodes := net.nodes[node := n.(table := table)])
  }

  /** Before anything happens: the wire and every cache are empty, and the clock is past 0. */
  predicate Initial(net: Network) {
    && net.clock > 0
    && net.packets == []
    && forall id <- net.nodes :: net.nodes[id].nodeId == id && net.nodes[id].seen == map[]
  }

  /** The network after a run, or None when some event of it was not possible. */
  function After(start: Network, run: seq<Event>): Option<Network> {
    if run == [] then Some(start)
    else
      var before := After(start, run[..|run| - 1]);
      if before.None? || !Enabled(before.value, run[|run| - 1]) then None
      else Some(Step(before.value, run[|run| - 1]))
  }

  // ---------------------------------------------------------------------------
  // What every packet satisfies
  // ---------------------------------------------------------------------------

  /** The ttl on the wire after the given number of hops: it counts down to 0 and then again from 9. */
  function TtlAfter(originTtl: int, hops: nat): int
    requires hops > 0
  {
    if originTtl < 0 || hops <= originTtl then originTtl - hops
    else DEFAULT_TTL - 1 - (hops - originTtl - 1) % DEFAULT_TTL
  }

  predicate PacketOk(packets: seq<Packet>, i: nat)
    requires i < |packets|
  {
    var p := packets[i];
    && Named(p.message)
    && 1 <= |p.message.hops| <= MAX_HOPS
    && p.originTtl != 0
    && p.message.ttl == TtlAfter(p.originTtl, |p.message.hops|)
    && p.message.hops[|p.message.hops| - 1].node == p.sender
    && (p.parent.None? ==> |p.message.hops| == 1)
    && (p.parent.Some? ==> p.parent.value < i && HopOf(packets[p.parent.value], p))
  }

  /** One forwarding step: one more hop, one less ttl than was read, everything else as before. */
  predicate HopOf(p: Packet, q: Packet) {
    && |q.message.hops| == |p.message.hops| + 1
    && q.message.hops[..|p.message.hops|] == p.message.hops
    && q.message.ttl == ReadTtl(Some(p.message.ttl)) - 1 >= 0
    && q.originTtl == p.originTtl
    && q.message.id == p.message.id && q.message.kind == p.message.kind
    && q.message.from == p.message.from && q.message.to == p.message.to
    && q.message.payload == p.message.payload && q.message.metadata == p.message.metadata
    && p.message.signatures <= q.message.signatures
  }

  /** The cache shows that id was marked at time t or later, or the clock shows that t is too long ago. */
  predicate Holds(seen: Seen, id: string, t: nat, clock: nat, maxAge: int) {
    (id in seen && seen[id] >= t) || clock - t > maxAge
  }

  /** A node remembers the messages it forwarded until they are too old. */
  predicate Remembered(net: Network, i: nat)
    requires i < |net.packets|
  {
    var p := net.packets[i];
    p.parent.Some? ==>
      && p.sender in net.nodes
      && 0 < p.markedAt <= net.clock
      && Holds(net.nodes[p.sender].seen, p.message.id, p.markedAt, net.clock, net.nodes[p.sender].maxSeenAge)
  }

  predicate SpacedAt(net: Network, i: nat, j: nat)
    requires i < j < |net.packets|
  {
    var p, q := net.packets[i], net.packets[j];
    p.parent.Some? && q.parent.Some? && p.sender == q.sender && p.message.id == q.message.id && p.sender in net.nodes
    ==> q.markedAt - p.markedAt > net.nodes[p.sender].maxSeenAge
  }

  predicate NodeOk(net: Network, id: string)
    requires id in net.nodes
  {
    var n := net.nodes[id];
    n.nodeId == id && forall k <- n.seen :: 0 < n.seen[k] <= net.clock
  }

  ghost predicate Inv(net: Network) {
    && net.clock > 0
    && (forall id <- net.nodes :: NodeOk(net, id))
    && (forall i: nat | i < |net.packets| :: PacketOk(net.packets, i))
    && (forall i: nat | i < |net.packets| :: Remembered(net, i))
    && (forall i: nat, j: nat | i < j < |net.packets| :: SpacedAt(net, i, j))
  }

  lemma TtlStep(originTtl: int, hops: nat)
    requires hops > 0 && originTtl != 0 && TtlAfter(originTtl, hops) >= 0
    ensures TtlAfter(originTtl, hops + 1) == ReadTtl(Some(TtlAfter(originTtl, hops))) - 1
  {
  }

  // ---------------------------------------------------------------------------
  // Every step keeps it
  // ---------------------------------------------------------------------------

  lemma HoldsAfterReceive(seen: Seen, r: Receipt, maxAge: int, id: string, t: nat, clock: nat)
    requires Holds(seen, id, t, clock, maxAge) && t <= clock <= r.at <= r.markedAt <= r.purgedAt
    ensures Holds(SeenCache.Receive(seen, r, maxAge), id, t, r.purgedAt, maxAge)
  {
  }

  lemma ForwardedPacket(n: Node, p: Packet, e: Reading)
    requires Named(p.message) && 1 <= |p.message.hops| <= MAX_HOPS && p.originTtl != 0
    requires p.message.ttl == TtlAfter(p.originTtl, |p.message.hops|)
    requires Decide(n, FromWire(ToWire(p.message), e.freshId), e).1.Some?
    ensures var sent := Decide(n, FromWire(ToWire(p.message), e.freshId), e).1.value;
            var q := Packet(sent, n.nodeId, e.markedAt, Some(0), p.originTtl);
            HopOf(p, q) && |q.message.hops| <= MAX_HOPS && q.message.ttl == TtlAfter(q.originTtl, |q.message.hops|)
            && q.message.hops[|q.message.hops| - 1].node == n.nodeId
  {
    TtlStep(p.originTtl, |p.message.hops|);
  }

  lemma DeliverKeepsNode(net: Network, e: Event, id: string)
    requires Inv(net) && e.Deliver? && Enabled(net, e) && id in net.nodes
    ensures NodeOk(Step(net, e), id)
  {
    assert NodeOk(net, id) && NodeOk(net, e.node);
  }

  lemma DeliverKeepsPacket(net: Network, e: Event, i: nat)
    requires Inv(net) && e.Deliver? && Enabled(net, e) && i < |net.packets|
    ensures PacketOk(Step(net, e).packets, i)
    ensures Remembered(Step(net, e), i)
  {
    assert PacketOk(net.packets, i) && Remembered(net, i);
    var n, q := net.nodes[e.node], net.packets[i];
    if q.parent.Some? && q.sender == e.node {
      var id := FromWire(ToWire(net.packets[e.packet].message), e.reading.freshId).id;
      var r := Receipt(id, e.reading.at, e.reading.markedAt, e.reading.purgedAt);
      HoldsAfterReceive(n.seen, r, n.maxSeenAge, q.message.id, q.markedAt, net.clock);
    }
  }

  lemma JustMarked(seen: Seen, r: Receipt, maxAge: int, now: nat)
    requires !IsSeen(seen, r.id, r.at, maxAge) && r.at <= r.markedAt <= r.purgedAt <= now
    ensures Holds(SeenCache.Receive(seen, r, maxAge), r.id, r.markedAt, now, maxAge)
  {
  }

  /** The packet that a delivery adds. */
  lemma DeliverAddsPacket(net: Network, e: Event)
    requires Inv(net) && e.Deliver? && Enabled(net, e) && |Step(net, e).packets| > |net.packets|
    ensures PacketOk(Step(net, e).packets, |net.packets|)
    ensures Remembered(Step(net, e), |net.packets|)
  {
    assert NodeOk(net, e.node) && PacketOk(net.packets, e.packet);
    var n, p := net.nodes[e.node], net.packets[e.packet];
    ForwardedPacket(n, p, e.reading);
    var r := Receipt(p.message.id, e.reading.at, e.reading.markedAt, e.reading.purgedAt);
    JustMarked(n.seen, r, n.maxSeenAge, e.reading.now);
  }

  /** It passed the duplicate check, so what the node forwarded before under this id is too old. */
  lemma DeliverSpaced(net: Network, e: Event, i: nat)
    requires Inv(net) && e.Deliver? && Enabled(net, e) && |Step(net, e).packets| > |net.packets|
    requires i < |net.packets|
    ensures SpacedAt(Step(net, e), i, |net.packets|)
  {
    assert NodeOk(net, e.node) && PacketOk(net.packets, e.packet) && Remembered(net, i);
  }

  lemma DeliverKeepsInv(net: Network, e: Event)
    requires Inv(net) && e.Deliver? && Enabled(net, e)
    ensures Inv(Step(net, e))
  {
    var next := Step(net, e);
    forall id | id in next.nodes ensures NodeOk(next, id) {
      DeliverKeepsNode(net, e, id);
    }
    forall i: nat | i < |next.packets| ensures PacketOk(next.packets, i) && Remembered(next, i) {
      if i < |net.packets| {
        DeliverKeepsPacket(net, e, i);
      } else {
        DeliverAddsPacket(net, e);
      }
    }
    forall i: nat, j: nat | i < j < |next.packets| ensures SpacedAt(next, i, j) {
      if j < |net.packets| {
        assert SpacedAt(net, i, j);
      } else {
        DeliverSpaced(net, e, i);
      }
    }
  }

  lemma SendKeepsInv(net: Network, e: Event)
    requires Inv(net) && e.Send? && Enabled(net, e)
    ensures Inv(Step(net, e))
  {
    var next := Step(net, e);
    var j := |net.packets|;
    forall id | id in next.nodes ensures NodeOk(next, id) {
      assert NodeOk(net, id);
    }
    forall i: nat | i < j ensures PacketOk(next.packets, i) && Remembered(next, i) {
      assert PacketOk(net.packets, i) && Remembered(net, i);
    }
    forall i: nat, k: nat | i < k < |next.packets| ensures SpacedAt(next, i, k) {
      assert k < j ==> SpacedAt(net, i, k);
    }
    assert PacketOk(next.packets, j) by {
      assert NodeOk(net, e.node);
    }
  }

  lemma RerouteKeepsInv(net: Network, e: Event)
    requires Inv(net) && e.Reroute? && Enabled(net, e)
    ensures Inv(Step(net, e))
  {
    var next := Step(net, e);
    forall id | id in next.nodes ensures NodeOk(next, id) {
      assert NodeOk(net, id);
    }
    forall i: nat | i < |net.packets| ensures PacketOk(next.packets, i) && Remembered(next, i) {
      assert PacketOk(net.packets, i) && Remembered(net, i);
    }
    forall i: nat, j: nat | i < j < |net.packets| ensures SpacedAt(next, i, j) {
      assert SpacedAt(net, i, j);
    }
  }

  lemma {:induction false} RunKeepsInv(start: Network, run: seq<Event>)
    requires Initial(start) && After(start, run).Some?
    ensures Inv(After(start, run).value)
    decreases |run|
  {
    if run == [] {
      forall id | id in start.nodes ensures NodeOk(start, id) {
      }
    } else {
      var before, e := After(start, run[..|run| - 1]).value, run[|run| - 1];
      RunKeepsInv(start, run[..|run| - 1]);
      match e {
        case Send(_, _, _, _, _, _, _, _) => SendKeepsInv(before, e);
        case Deliver(_, _, _) => DeliverKeepsInv(before, e);
        case Reroute(_, _) => RerouteKeepsInv(before, e);
      }
    }
  }

  // ---------------------------------------------------------------------------
  // What it means for a run
  // ---------------------------------------------------------------------------

  /** The packets that carried a message from its origin up to packet i. */
  function Path(packets: seq<Packet>, i: nat): (path: seq<Packet>)
    requires i < |packets|
    requires forall k: nat | k < |packets| :: PacketOk(packets, k)
    ensures |path| == |packets[i].message.hops|
    decreases i
  {
    assert PacketOk(packets, i);
    (match packets[i].parent
     case None => []
     case Some(k) => Path(packets, k)) + [packets[i]]
  }

  /**
   In every run, every forwarding path has at most 15 packets, the hop list names exactly the nodes
   on it in order, and the k-th packet of the path carries the ttl that its origin ttl determines. A path
   changes neither the message's identity nor its contents.
   */
  lemma {:induction false} PathOfRun(net: Network, i: nat, k: nat)
    requires Inv(net) && i < |net.packets| && k < |Path(net.packets, i)|
    ensures |Path(net.packets, i)| <= 15
    ensures var p, q := net.packets[i], Path(net.packets, i)[k];
            && q.sender == p.message.hops[k].node
            && q.message.ttl == TtlAfter(p.originTtl, k + 1)
            && q.message.hops == p.message.hops[..k + 1]
            && q.message.id == p.message.id && q.message.from == p.message.from && q.message.to == p.message.to
            && q.message.payload == p.message.payload
    decreases i
  {
    assert PacketOk(net.packets, i);
    var p := net.packets[i];
    if k == |p.message.hops| - 1 {
      assert p.message.hops[..k + 1] == p.message.hops;
    } else {
      var parent := p.parent.value;
      PathOfRun(net, parent, k);
      assert net.packets[parent].message.hops[k] == p.message.hops[..|p.message.hops| - 1][k];
      assert p.message.hops[..|p.message.hops| - 1][..k + 1] == p.message.hops[..k + 1];
    }
  }

  /** ttl plus the number of hops is the same all along a path until a ttl of 0 has been sent. */
  lemma TtlConserved(net: Network, i: nat, k: nat)
    requires Inv(net) && i < |net.packets| && k < |Path(net.packets, i)|
    ensures var q := Path(net.packets, i)[k].message;
            var origin := net.packets[i].originTtl;
            q.ttl + |q.hops| == origin <==> origin < 0 || k + 1 <= origin
  {
    PathOfRun(net, i, k);
  }

  /** A message can only be found expired at the first receiver, and only if it was sent with a negative ttl. */
  lemma ExpiredOnlyWhenSentNegative(net: Network, i: nat, freshId: string)
    requires Inv(net) && i < |net.packets|
    ensures FromWire(ToWire(net.packets[i].message), freshId).ttl <= 0
       <==> net.packets[i].originTtl < 0 && net.packets[i].parent.None?
  {
    assert PacketOk(net.packets, i);
    var p := net.packets[i];
  }

  /**
   However the tables loop and however often the medium duplicates, a node does not forward one message id
   twice within its maxSeenAge.
   */
  lemma LoopsAreSlow(start: Network, run: seq<Event>, i: nat, j: nat)
    requires Initial(start) && After(start, run).Some?
    requires i < j < |After(start, run).value.packets|
    requires var net := After(start, run).value;
             var p, q := net.packets[i], net.packets[j];
             p.parent.Some? && q.parent.Some? && p.sender == q.sender && p.message.id == q.message.id
    ensures var net := After(start, run).value;
            && net.packets[i].sender in net.nodes
            && net.packets[j].markedAt - net.packets[i].markedAt > net.nodes[net.packets[i].sender].maxSeenAge
  {
    RunKeepsInv(start, run);
    var net := After(start, run).value;
    assert Remembered(net, i) && SpacedAt(net, i, j);
  }

  // ---------------------------------------------------------------------------
  // Hop signatures along a run
  // ---------------------------------------------------------------------------

  lemma {:induction false} PathCarries(net: Network, i: nat, k: nat)
    requires Inv(net) && i < |net.packets| && k < |Path(net.packets, i)|
    ensures var q := Path(net.packets, i)[k];
            && Carries(q.message, net.packets[i].message) && Named(q.message) && Named(net.packets[i].message)
            && |q.message.hops| == k + 1 && q.message.ttl == TtlAfter(net.packets[i].originTtl, k + 1)
    decreases i
  {
    assert PacketOk(net.packets, i);
    PathOfRun(net, i, k);
    var p := net.packets[i];
    if k < |p.message.hops| - 1 {
      PathCarries(net, p.parent.value, k);
    }
  }

  /**
   The exact condition for a signature to survive a path: hop a of packet i was signed by a recognised signer, and
   the ttl that the receiver of packet i reads is the one hop a left with.
   */
  lemma HopSignatureValidIff(net: Network, i: nat, a: nat, signer: Identity, s: HopSignature, v: Verifier,
                             freshId: string)
    requires Inv(net) && i < |net.packets| && a < |Path(net.packets, i)|
    requires SignedAtLastHop(Path(net.packets, i)[a].message, signer, s) && Recognises(v, signer)
    ensures var p := net.packets[i];
            var read := FromWire(ToWire(p.message), freshId);
            && s in read.signatures
            && (SignatureValid(read, v, s)
                <==> ReadTtl(Some(TtlAfter(p.originTtl, |p.message.hops|))) == TtlAfter(p.originTtl, a + 1))
  {
    assert PacketOk(net.packets, i);
    PathCarries(net, i, a);
    SignatureValidIff(Path(net.packets, i)[a].message, signer, s, net.packets[i].message, v, freshId);
  }

  /**
   That is: at the very next receiver, unless the hop left with ttl 0; and again after exactly ten relays, when
   the ttl has come round, unless the hop left with more than 10.
   */
  lemma TtlComesRound(originTtl: int, a: nat, hops: nat)
    requires originTtl != 0 && a < hops <= MAX_HOPS && (originTtl < 0 ==> hops == 1)
    ensures var signed := TtlAfter(originTtl, a + 1);
            ReadTtl(Some(TtlAfter(originTtl, hops))) == signed
            <==> signed != 0 && (hops == a + 1 || (hops == a + 11 && signed <= DEFAULT_TTL))
  {
  }

  /** The signature of hop a verifies at the receiver of packet i exactly then. */
  lemma HopSignatureSurvives(net: Network, i: nat, a: nat, signer: Identity, s: HopSignature, v: Verifier,
                             freshId: string)
    requires Inv(net) && i < |net.packets| && a < |Path(net.packets, i)|
    requires SignedAtLastHop(Path(net.packets, i)[a].message, signer, s) && Recognises(v, signer)
    ensures var p, relays := net.packets[i], |Path(net.packets, i)| - a - 1;
            var signed := TtlAfter(p.originTtl, a + 1);
            SignatureValid(FromWire(ToWire(p.message), freshId), v, s)
            <==> signed != 0 && (relays == 0 || (relays == 10 && signed <= DEFAULT_TTL))
  {
    HopSignatureValidIff(net, i, a, signer, s, v, freshId);
    if net.packets[i].originTtl < 0 {
      NegativeStaysFirst(net, i);
    }
    assert PacketOk(net.packets, i);
    TtlComesRound(net.packets[i].originTtl, a, |net.packets[i].message.hops|);
  }

  lemma NegativeStaysFirst(net: Network, i: nat)
    requires Inv(net) && i < |net.packets| && net.packets[i].originTtl < 0
    ensures |net.packets[i].message.hops| == 1
  {
    assert PacketOk(net.packets, i);
  }

  // ---------------------------------------------------------------------------
  // Networks in which every node signs and verifies
  // ---------------------------------------------------------------------------

  ghost predicate SigningNode(n: Node, id: string) {
    n.requireSignatures && n.identity.Some? && n.identity.value.nodeId == id
  }

  ghost predicate AllSign(net: Network) {
    forall id <- net.nodes :: SigningNode(net.nodes[id], id)
  }

  /** Every receiver knows the key of every node. */
  ghost predicate AllRecognised(net: Network, e: Event) {
    e.Deliver? ==> forall id <- net.nodes :: net.nodes[id].identity.Some? ==>
                     Recognises(e.reading.verifier, net.nodes[id].identity.value)
  }

  ghost predicate SignedByNode(net: Network, m: Message, id: string, s: HopSignature) {
    id in net.nodes && net.nodes[id].identity.Some? && SignedAtLastHop(m, net.nodes[id].identity.value, s)
  }

  ghost predicate SignedBySender(net: Network, p: Packet) {
    exists s :: SignedByNode(net, p.message, p.sender, s)
  }

  /** What runs of such networks keep: every packet is signed by its sender and has at most two hops. */
  ghost predicate SignedInv(net: Network) {
    && AllSign(net)
    && forall i: nat | i < |net.packets| :: SignedBySender(net, net.packets[i]) && |net.packets[i].message.hops| <= 2
  }

  ghost predicate AllVerify(start: Network, run: seq<Event>) {
    forall e <- run :: AllRecognised(start, e)
  }

  /** A packet with two hops is neither delivered nor forwarded: the first hop's signature does not verify. */
  lemma SecondHopRefused(net: Network, e: Event)
    requires Inv(net) && SignedInv(net) && e.Deliver? && Enabled(net, e) && AllRecognised(net, e)
    requires |net.packets[e.packet].message.hops| == 2
    ensures var m := FromWire(ToWire(net.packets[e.packet].message), e.reading.freshId);
            var (action, travels) := Decide(net.nodes[e.node], m, e.reading);
            travels.None? && (action.Duplicate? || action.Expired? || action.Invalid?)
  {
    assert SigningNode(net.nodes[e.node], e.node);
    var p := net.packets[e.packet];
    assert PacketOk(net.packets, e.packet);
    var q := net.packets[p.parent.value];
    assert PacketOk(net.packets, p.parent.value);
    assert SignedBySender(net, q);
    var s :| SignedByNode(net, q.message, q.sender, s);
    assert Carries(q.message, p.message);
    RelayInvalidates(q.message, net.nodes[q.sender].identity.value, s, e.reading.verifier, p.message,
                    e.reading.freshId);
  }

  lemma SignedPacketsKept(net: Network, next: Network)
    requires SignedInv(net) && next.nodes.Keys == net.nodes.Keys && next.packets == net.packets
    requires forall id <- net.nodes :: next.nodes[id].identity == net.nodes[id].identity
                                    && next.nodes[id].requireSignatures == net.nodes[id].requireSignatures
    ensures SignedInv(next)
  {
    forall id | id in next.nodes ensures SigningNode(next.nodes[id], id) {
      assert SigningNode(net.nodes[id], id);
    }
    forall i: nat | i < |net.packets| ensures SignedBySender(next, next.packets[i]) {
      assert SignedBySender(net, net.packets[i]);
      var s :| SignedByNode(net, net.packets[i].message, net.packets[i].sender, s);
      assert SignedByNode(next, next.packets[i].message, next.packets[i].sender, s);
    }
  }

  /** A packet that node id adds to such a network. */
  lemma SignedPacketAdded(net: Network, id: string, m: Message, now: nat, p: Packet)
    requires SignedInv(net) && id in net.nodes && net.nodes[id].nodeId == id
    requires |m.hops| <= 1 && p.message == AddedHop(net.nodes[id], m, now) && p.sender == id
    ensures SignedInv(net.(packets := net.packets + [p]))
  {
    var next := net.(packets := net.packets + [p]);
    assert SigningNode(net.nodes[id], id);
    var signer := net.nodes[id].identity.value;
    var s := SigningLeavesSignature(WithHop(m, id, now), signer, now);
    assert SignedByNode(next, p.message, id, s);
    forall i: nat | i < |next.packets| ensures SignedBySender(next, next.packets[i]) {
      if i < |net.packets| {
        assert SignedBySender(net, net.packets[i]);
        var r :| SignedByNode(net, net.packets[i].message, net.packets[i].sender, r);
        assert SignedByNode(next, next.packets[i].message, next.packets[i].sender, r);
      }
    }
  }

  lemma DeliverKeepsSigned(net: Network, e: Event)
    requires Inv(net) && SignedInv(net) && e.Deliver? && Enabled(net, e) && AllRecognised(net, e)
    ensures SignedInv(Step(net, e))
  {
    var n, p := net.nodes[e.node], net.packets[e.packet];
    assert NodeOk(net, e.node) && PacketOk(net.packets, e.packet);
    assert SigningNode(n, e.node) && SignedBySender(net, p);
    var read := FromWire(ToWire(p.message), e.reading.freshId);
    var mid := Network(e.reading.now, net.nodes[e.node := AfterReceive(n, ToWire(p.message), e.reading)], net.packets);
    SignedPacketsKept(net, mid);
    if Decide(n, read, e.reading).1.Some? {
      assert |p.message.hops| == 1 by {
        if |p.message.hops| == 2 {
          SecondHopRefused(net, e);
        }
      }
      var q := Packet(Decide(n, read, e.reading).1.value, e.node, e.reading.markedAt, Some(e.packet), p.originTtl);
      SignedPacketAdded(mid, e.node, read, e.reading.now, q);
    } else {
      assert Step(net, e).packets == net.packets;
    }
  }

  lemma StepKeepsSigned(net: Network, e: Event)
    requires Inv(net) && SignedInv(net) && Enabled(net, e) && AllRecognised(net, e)
    ensures SignedInv(Step(net, e))
  {
    match e {
      case Send(node, kind, to, payload, ttl, metadata, freshId, now) =>
        assert NodeOk(net, node);
        var m := NewMessage(net.nodes[node], kind, to, payload, ttl, metadata, freshId, now);
        var p := Packet(AddedHop(net.nodes[node], m, now), node, now, None, ReadTtl(ttl));
        SignedPacketsKept(net, net.(clock := now));
        SignedPacketAdded(net.(clock := now), node, m, now, p);
      case Deliver(_, _, _) =>
        DeliverKeepsSigned(net, e);
      case Reroute(_, _) =>
        SignedPacketsKept(net, Step(net, e));
    }
  }

  lemma StepKeepsIdentities(net: Network, e: Event)
    requires Enabled(net, e)
    ensures Step(net, e).nodes.Keys == net.nodes.Keys
    ensures forall id <- net.nodes :: Step(net, e).nodes[id].identity == net.nodes[id].identity
  {
  }

  /**
   Where every node signs what it sends and verifies what it receives, with keys that all recognise, no message
   makes more than two hops, and no message that has made two is accepted by anyone.
   */
  lemma {:induction false} SigningStopsAtTwoHops(start: Network, run: seq<Event>)
    requires Initial(start) && AllSign(start) && AllVerify(start, run) && After(start, run).Some?
    ensures SignedInv(After(start, run).value)
    ensures After(start, run).value.nodes.Keys == start.nodes.Keys
    ensures forall id <- start.nodes :: After(start, run).value.nodes[id].identity == start.nodes[id].identity
    decreases |run|
  {
    if run != [] {
      var prefix, e := run[..|run| - 1], run[|run| - 1];
      var before := After(start, prefix).value;
      SigningStopsAtTwoHops(start, prefix);
      RunKeepsInv(start, prefix);
      assert AllRecognised(start, e);
      StepKeepsSigned(before, e);
      StepKeepsIdentities(before, e);
    }
  }

  // ---------------------------------------------------------------------------
  // Destinations
  // ---------------------------------------------------------------------------

  /** A message for everyone is taken by every node that has not seen it, and none sends it on. */
  lemma BroadcastIsTaken(n: Node, m: Message, e: Reading)
    requires m.to == "*"
    ensures Decide(n, m, e).1 == None
    ensures Decide(n, m, e).0 == Delivered <==>
            && !IsSeen(n.seen, m.id, e.at, n.maxSeenAge) && m.ttl > 0
            && (!n.requireSignatures || m.signatures == [] || SignaturesValid(m, e.verifier))
  {
  }

  /** A packet that was sent on is not one that its sender should have kept. */
  ghost predicate PassedOnRightly(p: Packet) {
    p.parent.Some? ==> p.message.to != "*" && p.message.to != p.sender
  }

  lemma StepPassesOnRightly(net: Network, e: Event, i: nat)
    requires Inv(net) && Enabled(net, e) && i < |Step(net, e).packets|
    requires forall k: nat | k < |net.packets| :: PassedOnRightly(net.packets[k])
    ensures PassedOnRightly(Step(net, e).packets[i])
  {
    if e.Deliver? && i == |net.packets| {
      assert NodeOk(net, e.node);
    }
  }

  /** In every run, a message stops at the node it is for, and a message for everyone makes only one hop. */
  lemma {:induction false} DestinationStops(start: Network, run: seq<Event>)
    requires Initial(start) && After(start, run).Some?
    ensures forall k: nat | k < |After(start, run).value.packets| ::
              var p := After(start, run).value.packets[k];
              PassedOnRightly(p) && (p.message.to == "*" ==> |p.message.hops| == 1)
    decreases |run|
  {
    RunKeepsInv(start, run);
    var net := After(start, run).value;
    if run != [] {
      var before, e := After(start, run[..|run| - 1]).value, run[|run| - 1];
      DestinationStops(start, run[..|run| - 1]);
      RunKeepsInv(start, run[..|run| - 1]);
      forall k: nat | k < |net.packets| ensures PassedOnRightly(net.packets[k]) {
        StepPassesOnRightly(before, e, k);
      }
    }
    assert forall k: nat | k < |net.packets| :: PacketOk(net.packets, k);
  }
}
