/**
 core/crypto/channel.js: one endpoint of a secure channel, and every run of a pair of them.
 */
module SecureChannel {
  import Hkdf
  import opened ChannelContext
  import opened Results
  import opened Strings

  datatype Sealed = Sealed(ciphertext: Bytes, tag: Bytes)

  /** What the key derivation is built from, and the authenticated encryption under box.js; uninterpreted. */
  datatype Crypto = Crypto(
    hashes: Hkdf.Primitives,
    seal: (Bytes, Bytes, Bytes, Option<Bytes>) -> Sealed,
    open: (Bytes, Bytes, Sealed, Option<Bytes>) -> Option<Bytes>)

  ghost predicate Sound(c: Crypto) {
    && Hkdf.Sound(c.hashes)
    && (forall key, nonce, text, aad :: |c.seal(key, nonce, text, aad).tag| == 16)
    && (forall key, nonce, text, aad :: c.open(key, nonce, c.seal(key, nonce, text, aad), aad) == Some(text))
  }

  function Other(role: Role): Role {
    match role
    case Alice => Bob
    case Bob => Alice
  }

  /** What two paired endpoints share. */
  datatype Pairing = Pairing(crypto: Crypto, secret: Bytes, base: Bytes)

  /** The key-derivation input that identifies the key for one epoch and direction. */
  function KeyInfo(p: Pairing, epoch: nat, from: Role): Bytes {
    SessionInfo(Context(p.base, epoch, from), 1)
  }

  function KeyFor(p: Pairing, epoch: nat, from: Role): Bytes
    requires Sound(p.crypto)
  {
    SessionKey(p.crypto.hashes, p.secret, Context(p.base, epoch, from), 1)
  }

  function NonceBaseFor(p: Pairing, epoch: nat, from: Role): (base: Bytes)
    requires Sound(p.crypto)
    ensures |base| == 12
  {
    NonceBase(p.crypto.hashes, p.secret, Context(p.base, epoch, from))
  }

  /** Both in full: HKDF without a salt over the secret, under the labels of derive.js and channel.js. */
  lemma KeyMaterial(p: Pairing, epoch: nat, from: Role)
    requires Sound(p.crypto)
    ensures var h := p.crypto.hashes;
            var prk := Hkdf.Extract(h, Hkdf.Blake2b, [], p.secret);
            var ctx := Context(p.base, epoch, from);
            && KeyFor(p, epoch, from) == Hkdf.Expand(h, Hkdf.Blake2b, prk, Ascii("nzcore:session:") + ctx + [1], 32)
            && NonceBaseFor(p, epoch, from) == Hkdf.Expand(h, Hkdf.Blake2b, prk, Ascii("nzcore:nonce:") + ctx, 12)
  {
  }

  // ---------------------------------------------------------------------------
  // One endpoint
  // ---------------------------------------------------------------------------

  datatype Packet = Packet(nonce: Bytes, sealed: Sealed, counter: nat, epoch: nat)

  datatype Endpoint = Endpoint(role: Role, epoch: nat, sendCounter: nat, recvCounter: nat)

  function Start(role: Role): Endpoint { Endpoint(role, 0, 1, 1) }

  function Rekeyed(e: Endpoint): Endpoint { Endpoint(e.role, e.epoch + 1, 1, 1) }

  function PacketFor(p: Pairing, epoch: nat, from: Role, counter: nat, text: Bytes, aad: Option<Bytes>): Packet
    requires Sound(p.crypto)
  {
    var nonce := Nonce(NonceBaseFor(p, epoch, from), counter);
    Packet(nonce, p.crypto.seal(KeyFor(p, epoch, from), nonce, text, aad), counter, epoch)
  }

  /** boxDecrypt throws on a nonce or tag of the wrong length. */
  function Opened(p: Pairing, e: Endpoint, nonce: Bytes, sealed: Sealed, aad: Option<Bytes>): Result<Option<Bytes>>
    requires Sound(p.crypto)
  {
    if |nonce| != 12 then Err("box: nonce must be 12 bytes")
    else if |sealed.tag| != 16 then Err("box: tag must be 16 bytes")
    else Ok(p.crypto.open(KeyFor(p, e.epoch, Other(e.role)), nonce, sealed, aad))
  }

  class SecureChannel {
    const pairing: Pairing
    const role: Role
    var epoch: nat
    var sendCounter: nat
    var recvCounter: nat
    var sendKey: Bytes
    var recvKey: Bytes
    var sendNonceBase: Bytes
    var recvNonceBase: Bytes

    ghost predicate Valid()
      reads this
    {
      && Sound(pairing.crypto)
      && sendKey == KeyFor(pairing, epoch, role)
      && recvKey == KeyFor(pairing, epoch, Other(role))
      && sendNonceBase == NonceBaseFor(pairing, epoch, role)
      && recvNonceBase == NonceBaseFor(pairing, epoch, Other(role))
    }

    function View(): Endpoint
      reads this
    {
      Endpoint(role, epoch, sendCounter, recvCounter)
    }

    constructor (pairing: Pairing, role: Role)
      requires Sound(pairing.crypto)
      ensures this.pairing == pairing && Valid() && View() == Start(role)
    {
      this.pairing, this.role := pairing, role;
      epoch, sendCounter, recvCounter := 0, 1, 1;
      new;
      DeriveKeysForEpoch();
    }

    /** The source's constructor with its checks: what is missing or unknown is thrown on, in this order. */
    static method Create(crypto: Crypto, sharedSecret: Option<Bytes>, baseContext: Bytes, role: string)
      returns (r: Result<SecureChannel>)
      requires Sound(crypto)
      ensures r.Ok? <==> sharedSecret.Some? && baseContext != [] && (role == "alice" || role == "bob")
      ensures r.Err? ==> r.error == if sharedSecret.None? then "SecureChannel: sharedSecret is required"
                                    else if baseContext == [] then "SecureChannel: baseContext is required"
                                    else "SecureChannel: role must be \"alice\" or \"bob\""
      ensures r.Ok? ==> fresh(r.value) && r.value.pairing == Pairing(crypto, sharedSecret.value, baseContext)
      ensures r.Ok? ==> r.value.Valid() && r.value.View() == Start(if role == "alice" then Alice else Bob)
    {
      if sharedSecret.None? {
        return Err("SecureChannel: sharedSecret is required");
      }
      if baseContext == [] {
        return Err("SecureChannel: baseContext is required");
      }
      if role != "alice" && role != "bob" {
        return Err("SecureChannel: role must be \"alice\" or \"bob\"");
      }
      var channel := new SecureChannel(Pairing(crypto, sharedSecret.value, baseContext),
                                       if role == "alice" then Alice else Bob);
      return Ok(channel);
    }

    method DeriveKeysForEpoch()
      requires Sound(pairing.crypto)
      modifies this
      ensures Valid() && View() == old(View())
    {
      var ctxAB := Context(pairing.base, epoch, Alice);
      var ctxBA := Context(pairing.base, epoch, Bob);
      var keysAB := DeriveSessionKeys(pairing.crypto.hashes, pairing.secret, ctxAB);
      var keysBA := DeriveSessionKeys(pairing.crypto.hashes, pairing.secret, ctxBA);
      var nonceBaseAB := DeriveNonceBase(pairing.crypto.hashes, pairing.secret, ctxAB);
      var nonceBaseBA := DeriveNonceBase(pairing.crypto.hashes, pairing.secret, ctxBA);
      if role == Alice {
        sendKey, recvKey := keysAB.send, keysBA.send;
        sendNonceBase, recvNonceBase := nonceBaseAB, nonceBaseBA;
      } else {
        sendKey, recvKey := keysBA.send, keysAB.send;
        sendNonceBase, recvNonceBase := nonceBaseBA, nonceBaseAB;
      }
    }

    method Rekey()
      requires Valid()
      modifies this
      ensures Valid() && View() == Rekeyed(old(View()))
    {
      epoch := epoch + 1;
      sendCounter := 1;
      recvCounter := 1;
      DeriveKeysForEpoch();
    }

    method EncryptToPeer(plaintext: Bytes, aad: Option<Bytes>) returns (packet: Packet)
      requires Valid()
      modifies this
      ensures Valid() && View() == old(View()).(sendCounter := old(sendCounter) + 1)
      ensures packet == PacketFor(pairing, epoch, role, old(sendCounter), plaintext, aad)
    {
      var counter := sendCounter;
      sendCounter := sendCounter + 1;
      var nonce := MakeNonce(sendNonceBase, counter);
      packet := Packet(nonce.value, pairing.crypto.seal(sendKey, nonce.value, plaintext, aad), counter, epoch);
    }

    method DecryptFromPeer(nonce: Bytes, sealed: Sealed, aad: Option<Bytes>) returns (r: Result<Option<Bytes>>)
      requires Valid()
      modifies this
      ensures Valid() && r == Opened(pairing, old(View()), nonce, sealed, aad)
      ensures View() == Received(old(View()), r)
    {
      if |nonce| != 12 {
        return Err("box: nonce must be 12 bytes");
      }
      if |sealed.tag| != 16 {
        return Err("box: tag must be 16 bytes");
      }
      var plaintext := pairing.crypto.open(recvKey, nonce, sealed, aad);
      if plaintext != None {
        recvCounter := recvCounter + 1;
      }
      return Ok(plaintext);
    }
  }

  function Received(e: Endpoint, r: Result<Option<Bytes>>): Endpoint {
    if r.Ok? && r.value != None then e.(recvCounter := e.recvCounter + 1) else e
  }

  // ---------------------------------------------------------------------------
  // Runs of a pair
  // ---------------------------------------------------------------------------

  /** A packet that was sent, with what was put into it. */
  datatype Sent = Sent(from: Role, packet: Packet, text: Bytes, aad: Option<Bytes>)

  /** What either side may do. A receive takes any bytes at all: a packet of this run, late,
      repeated or out of order, or something else entirely. */
  datatype Event =
    | Send(role: Role, text: Bytes, aad: Option<Bytes>)
    | Rekey(role: Role)
    | Receive(role: Role, nonce: Bytes, sealed: Sealed, aad: Option<Bytes>)

  datatype Net = Net(alice: Endpoint, bob: Endpoint, log: seq<Sent>)

  function EndOf(n: Net, role: Role): Endpoint {
    match role
    case Alice => n.alice
    case Bob => n.bob
  }

  function WithEnd(n: Net, role: Role, e: Endpoint): Net {
    match role
    case Alice => n.(alice := e)
    case Bob => n.(bob := e)
  }

  ghost function Step(p: Pairing, n: Net, ev: Event): Net
    requires Sound(p.crypto)
  {
    var e := EndOf(n, ev.role);
    match ev
    case Send(role, text, aad) =>
      var packet := PacketFor(p, e.epoch, role, e.sendCounter, text, aad);
      WithEnd(n, role, e.(sendCounter := e.sendCounter + 1)).(log := n.log + [Sent(role, packet, text, aad)])
    case Rekey(role) => WithEnd(n, role, Rekeyed(e))
    case Receive(role, nonce, sealed, aad) => WithEnd(n, role, Received(e, Opened(p, e, nonce, sealed, aad)))
  }

  ghost function After(p: Pairing, events: seq<Event>): Net
    requires Sound(p.crypto)
  {
    if events == [] then Net(Start(Alice), Start(Bob), [])
    else Step(p, After(p, events[..|events| - 1]), events[|events| - 1])
  }

  // ---------------------------------------------------------------------------
  // What every run keeps
  // ---------------------------------------------------------------------------

  ghost predicate Genuine(p: Pairing, s: Sent)
    requires Sound(p.crypto)
  {
    s.packet == PacketFor(p, s.packet.epoch, s.from, s.packet.counter, s.text, s.aad)
  }

  /** s was sent before the endpoint's next send. */
  predicate Behind(s: Sent, e: Endpoint) {
    && s.packet.counter >= 1
    && (s.packet.epoch < e.epoch || (s.packet.epoch == e.epoch && s.packet.counter < e.sendCounter))
  }

  predicate SameSlot(s: Sent, t: Sent) {
    s.from == t.from && s.packet.epoch == t.packet.epoch
  }

  /** Two packets of one sender never repeat an epoch and counter. */
  ghost predicate Ordered(log: seq<Sent>) {
    forall i, j :: 0 <= i < j < |log| && SameSlot(log[i], log[j]) ==> log[i].packet.counter < log[j].packet.counter
  }

  /** Within an epoch counters start at 1 and leave no gaps. */
  ghost predicate NoGaps(log: seq<Sent>) {
    forall j :: 0 <= j < |log| && log[j].packet.counter > 1 ==> HasPrevious(log, j)
  }

  ghost predicate HasPrevious(log: seq<Sent>, j: nat)
    requires j < |log|
  {
    exists i :: 0 <= i < j && SameSlot(log[i], log[j]) && log[i].packet.counter == log[j].packet.counter - 1
  }

  ghost predicate Logged(log: seq<Sent>, from: Role, epoch: nat, counter: int) {
    exists i :: 0 <= i < |log| && log[i].from == from && log[i].packet.epoch == epoch
             && log[i].packet.counter == counter
  }

  ghost predicate Reached(log: seq<Sent>, e: Endpoint) {
    e.sendCounter >= 1 && (e.sendCounter > 1 ==> Logged(log, e.role, e.epoch, e.sendCounter - 1))
  }

  ghost predicate LogInv(p: Pairing, n: Net)
    requires Sound(p.crypto)
  {
    && (forall i :: 0 <= i < |n.log| ==> Genuine(p, n.log[i]) && Behind(n.log[i], EndOf(n, n.log[i].from)))
    && Ordered(n.log) && NoGaps(n.log)
  }

  ghost predicate Inv(p: Pairing, n: Net)
    requires Sound(p.crypto)
  {
    && n.alice.role == Alice && n.bob.role == Bob
    && LogInv(p, n) && Reached(n.log, n.alice) && Reached(n.log, n.bob)
  }

  lemma NoGapsAppend(log: seq<Sent>, s: Sent)
    requires NoGaps(log)
    requires s.packet.counter > 1 ==> Logged(log, s.from, s.packet.epoch, s.packet.counter - 1)
    ensures NoGaps(log + [s])
  {
    var log' := log + [s];
    forall j | 0 <= j < |log'| && log'[j].packet.counter > 1 ensures HasPrevious(log', j) {
      if j < |log| {
        assert HasPrevious(log, j);
        var i :| 0 <= i < j && SameSlot(log[i], log[j]) && log[i].packet.counter == log[j].packet.counter - 1;
        assert log'[i] == log[i] && log'[j] == log[j];
      } else {
        var i :| 0 <= i < |log| && log[i].from == s.from && log[i].packet.epoch == s.packet.epoch
                 && log[i].packet.counter == s.packet.counter - 1;
        assert log'[i] == log[i] && log'[j] == s;
      }
    }
  }

  lemma SendKeepsInv(p: Pairing, n: Net, ev: Event)
    requires Sound(p.crypto) && Inv(p, n) && ev.Send?
    ensures Inv(p, Step(p, n, ev))
  {
    var e, n' := EndOf(n, ev.role), Step(p, n, ev);
    var s := n'.log[|n.log|];
    assert n'.log == n.log + [s];
    SendKeepsLog(p, n, ev);
    ReachedLater(n.log, n'.log, EndOf(n, Other(ev.role)));
    assert n'.log[|n.log|] == s && s.from == ev.role && s.packet.epoch == e.epoch && s.packet.counter == e.sendCounter;
  }

  lemma SendKeepsLog(p: Pairing, n: Net, ev: Event)
    requires Sound(p.crypto) && Inv(p, n) && ev.Send?
    ensures LogInv(p, Step(p, n, ev))
  {
    var e, n' := EndOf(n, ev.role), Step(p, n, ev);
    var s := n'.log[|n.log|];
    assert n'.log == n.log + [s];
    NoGapsAppend(n.log, s);
    forall i | 0 <= i < |n'.log|
      ensures Genuine(p, n'.log[i]) && Behind(n'.log[i], EndOf(n', n'.log[i].from))
    {
      if i < |n.log| {
        assert n'.log[i] == n.log[i];
        assert Behind(n.log[i], EndOf(n, n.log[i].from));
      }
    }
  }

  lemma ReachedLater(log: seq<Sent>, log': seq<Sent>, e: Endpoint)
    requires log <= log' && Reached(log, e)
    ensures Reached(log', e)
  {
    if e.sendCounter > 1 {
      var i :| 0 <= i < |log| && log[i].from == e.role && log[i].packet.epoch == e.epoch
               && log[i].packet.counter == e.sendCounter - 1;
      assert log'[i] == log[i];
    }
  }

  lemma StepKeepsInv(p: Pairing, n: Net, ev: Event)
    requires Sound(p.crypto) && Inv(p, n)
    ensures Inv(p, Step(p, n, ev))
  {
    if ev.Send? {
      SendKeepsInv(p, n, ev);
    } else {
      var e, e' := EndOf(n, ev.role), EndOf(Step(p, n, ev), ev.role);
      AdvanceKeepsLog(p, n, ev.role, e');
    }
  }

  /** A rekey or a receive leaves the log alone and moves one endpoint forward. */
  lemma AdvanceKeepsLog(p: Pairing, n: Net, role: Role, e': Endpoint)
    requires Sound(p.crypto) && Inv(p, n)
    requires var e := EndOf(n, role);
             e'.role == e.role && (e' == Rekeyed(e) || e' == e.(recvCounter := e'.recvCounter))
    ensures Inv(p, WithEnd(n, role, e'))
  {
    var n' := WithEnd(n, role, e');
    forall i | 0 <= i < |n.log| ensures Behind(n.log[i], EndOf(n', n.log[i].from)) {
      assert Behind(n.log[i], EndOf(n, n.log[i].from));
    }
    assert Reached(n.log, e') by {
      if e' != Rekeyed(EndOf(n, role)) {
        assert Reached(n.log, EndOf(n, role));
      }
    }
  }

  lemma {:induction false} RunKeepsInv(p: Pairing, events: seq<Event>)
    requires Sound(p.crypto)
    ensures Inv(p, After(p, events))
  {
    if events != [] {
      RunKeepsInv(p, events[..|events| - 1]);
      StepKeepsInv(p, After(p, events[..|events| - 1]), events[|events| - 1]);
    }
  }

  // ---------------------------------------------------------------------------
  // Main results
  // ---------------------------------------------------------------------------

  /** In every run, any packet sent by the peer in the receiver's current epoch opens to what was
      sent, whatever was lost, delayed, repeated or rekeyed before. */
  lemma CurrentEpochDecrypts(p: Pairing, events: seq<Event>, i: nat)
    requires Sound(p.crypto) && i < |After(p, events).log|
    ensures var n := After(p, events);
            var s := n.log[i];
            var receiver := EndOf(n, Other(s.from));
            s.packet.epoch == receiver.epoch ==>
              Opened(p, receiver, s.packet.nonce, s.packet.sealed, s.aad) == Ok(Some(s.text))
  {
    RunKeepsInv(p, events);
    var n := After(p, events);
    assert Genuine(p, n.log[i]);
  }

  /** What a packet uses up: a key, named by its derivation input, and a nonce under it. */
  function Use(p: Pairing, s: Sent): (Bytes, Bytes) {
    (KeyInfo(p, s.packet.epoch, s.from), s.packet.nonce)
  }

  ghost predicate UsesDistinct(p: Pairing, log: seq<Sent>) {
    forall i, j :: 0 <= i < j < |log| ==> Use(p, log[i]) != Use(p, log[j])
  }

  /** No epoch has more than 2^32 sends in one direction. */
  predicate WithinLimit(log: seq<Sent>) {
    forall i :: 0 <= i < |log| ==> log[i].packet.counter <= TWO_TO_32
  }

  lemma SameUse(p: Pairing, s: Sent, t: Sent)
    requires Sound(p.crypto) && Genuine(p, s) && Genuine(p, t)
    ensures Use(p, s) == Use(p, t) <==> SameSlot(s, t) && s.packet.counter % TWO_TO_32 == t.packet.counter % TWO_TO_32
  {
    if Use(p, s) == Use(p, t) {
      SessionInfoInjective(Context(p.base, s.packet.epoch, s.from), 1, Context(p.base, t.packet.epoch, t.from), 1);
      ContextInjective(p.base, s.packet.epoch, s.from, p.base, t.packet.epoch, t.from);
    }
    if SameSlot(s, t) {
      NonceCollision(NonceBaseFor(p, s.packet.epoch, s.from), s.packet.counter, t.packet.counter);
    }
  }

  /** Counting down from packet j inside its epoch. */
  lemma {:induction false} Earlier(log: seq<Sent>, j: nat, k: nat) returns (i: nat)
    requires NoGaps(log) && j < |log| && k < log[j].packet.counter
    ensures i <= j && SameSlot(log[i], log[j]) && log[i].packet.counter == log[j].packet.counter - k
    ensures k > 0 ==> i < j
    decreases k
  {
    i := j;
    if k > 0 {
      assert HasPrevious(log, j);
      var h :| 0 <= h < j && SameSlot(log[h], log[j]) && log[h].packet.counter == log[j].packet.counter - 1;
      i := Earlier(log, h, k - 1);
    }
  }

  lemma LimitGivesDistinct(p: Pairing, n: Net)
    requires Sound(p.crypto) && LogInv(p, n) && WithinLimit(n.log)
    ensures UsesDistinct(p, n.log)
  {
    forall i, j | 0 <= i < j < |n.log| ensures Use(p, n.log[i]) != Use(p, n.log[j]) {
      SameUse(p, n.log[i], n.log[j]);
      LimitedCounters(n.log[i].packet.counter, n.log[j].packet.counter);
    }
  }

  lemma LimitedCounters(c: nat, d: nat)
    requires 1 <= c <= TWO_TO_32 && 1 <= d <= TWO_TO_32
    ensures c % TWO_TO_32 == d % TWO_TO_32 <==> c == d
  {
  }

  lemma BeyondLimitRepeats(p: Pairing, n: Net, j: nat)
    requires Sound(p.crypto) && LogInv(p, n) && j < |n.log| && n.log[j].packet.counter > TWO_TO_32
    ensures exists i :: 0 <= i < j && Use(p, n.log[i]) == Use(p, n.log[j])
  {
    var i := Earlier(n.log, j, TWO_TO_32);
    TurnRepeats(p, n.log[i], n.log[j]);
  }

  lemma TurnRepeats(p: Pairing, s: Sent, t: Sent)
    requires Sound(p.crypto) && Genuine(p, s) && Genuine(p, t)
    requires SameSlot(s, t) && t.packet.counter == s.packet.counter + TWO_TO_32
    ensures Use(p, s) == Use(p, t)
  {
    FullTurn(s.packet.counter);
    SameUse(p, s, t);
  }

  lemma FullTurn(c: nat)
    ensures (c + TWO_TO_32) % TWO_TO_32 == c % TWO_TO_32
  {
  }

  /** In every run: no key and nonce are used twice if and only if every epoch stays within 2^32
      sends per direction. */
  lemma NonceReuseIff(p: Pairing, events: seq<Event>)
    requires Sound(p.crypto)
    ensures UsesDistinct(p, After(p, events).log) <==> WithinLimit(After(p, events).log)
  {
    RunKeepsInv(p, events);
    var n := After(p, events);
    if WithinLimit(n.log) {
      LimitGivesDistinct(p, n);
    } else {
      var j :| 0 <= j < |n.log| && n.log[j].packet.counter > TWO_TO_32;
      BeyondLimitRepeats(p, n, j);
    }
  }

  /** The key and the nonce themselves that a packet was sealed with. */
  function Spent(p: Pairing, s: Sent): (Bytes, Bytes)
    requires Sound(p.crypto)
  {
    (KeyFor(p, s.packet.epoch, s.from), s.packet.nonce)
  }

  ghost predicate SpentDistinct(p: Pairing, log: seq<Sent>)
    requires Sound(p.crypto)
  {
    forall i, j :: 0 <= i < j < |log| ==> Spent(p, log[i]) != Spent(p, log[j])
  }

  ghost predicate SameKey(p: Pairing, s: Sent, t: Sent)
    requires Sound(p.crypto)
  {
    KeyFor(p, s.packet.epoch, s.from) == KeyFor(p, t.packet.epoch, t.from)
  }

  /** No two of the derivation inputs used in a run collide in the key derivation. */
  ghost predicate KeysApart(p: Pairing, log: seq<Sent>)
    requires Sound(p.crypto)
  {
    forall i, j :: 0 <= i < j < |log| && SameKey(p, log[i], log[j]) ==> SameSlot(log[i], log[j])
  }

  lemma UsesAreSpent(p: Pairing, log: seq<Sent>)
    requires Sound(p.crypto)
    requires forall i :: 0 <= i < |log| ==> Genuine(p, log[i])
    ensures SpentDistinct(p, log) ==> UsesDistinct(p, log)
    ensures KeysApart(p, log) && UsesDistinct(p, log) ==> SpentDistinct(p, log)
  {
    forall i, j | 0 <= i < j < |log|
      ensures Use(p, log[i]) == Use(p, log[j]) ==> Spent(p, log[i]) == Spent(p, log[j])
      ensures KeysApart(p, log) && Spent(p, log[i]) == Spent(p, log[j]) ==> Use(p, log[i]) == Use(p, log[j])
    {
      SameUse(p, log[i], log[j]);
    }
  }

  /** The same for the keys themselves: repetition past the limit is certain, and within it only a collision
      of the key derivation among the keys of the run can cause one. */
  lemma KeyNonceReuseIff(p: Pairing, events: seq<Event>)
    requires Sound(p.crypto)
    ensures SpentDistinct(p, After(p, events).log) ==> WithinLimit(After(p, events).log)
    ensures KeysApart(p, After(p, events).log) ==>
            (SpentDistinct(p, After(p, events).log) <==> WithinLimit(After(p, events).log))
  {
    RunKeepsInv(p, events);
    NonceReuseIff(p, events);
    UsesAreSpent(p, After(p, events).log);
  }
}
