/**
 Epochs in core/crypto/channel.js: which of the packets sent in a run open at the other end, when the cipher under
 box.js opens nothing but what was sealed with the same key, nonce and additional data.
 */
module ChannelEpochs {
  import Hkdf
  import opened ChannelContext
  import opened Results
  import opened SecureChannel
  import opened Strings

  /** An ideal cipher, besides what Sound says: nothing opens under another key, nonce or additional data. */
  ghost predicate Authentic(c: Crypto) {
    forall key, nonce, text, aad, key', nonce', aad' ::
      (key, nonce, aad) != (key', nonce', aad') ==> c.open(key', nonce', c.seal(key, nonce, text, aad), aad') == None
  }

  /** The key that s was sealed with is not one that its receiver holds in another epoch. */
  ghost predicate KeyTellsEpoch(p: Pairing, s: Sent, receiver: Endpoint)
    requires Sound(p.crypto)
  {
    KeyFor(p, s.packet.epoch, s.from) == KeyFor(p, receiver.epoch, s.from) ==> s.packet.epoch == receiver.epoch
  }

  /**
   In every run: any packet sent by the peer opens, to what was sent, if and only if its epoch is the receiver's and
   its nonce and additional data are those it was sent with.
   */
  lemma OpensIff(p: Pairing, events: seq<Event>, i: nat, nonce: Bytes, aad: Option<Bytes>)
    requires Sound(p.crypto) && Authentic(p.crypto) && i < |After(p, events).log| && |nonce| == 12
    requires var s := After(p, events).log[i]; KeyTellsEpoch(p, s, EndOf(After(p, events), Other(s.from)))
    ensures var n := After(p, events);
            var s := n.log[i];
            var receiver := EndOf(n, Other(s.from));
            Opened(p, receiver, nonce, s.packet.sealed, aad)
            == Ok(if s.packet.epoch == receiver.epoch && nonce == s.packet.nonce && aad == s.aad then Some(s.text)
                  else None)
  {
    RunKeepsInv(p, events);
    var n := After(p, events);
    OpensExactly(p, n.log[i], EndOf(n, Other(n.log[i].from)), nonce, aad);
  }

  lemma OpensExactly(p: Pairing, s: Sent, receiver: Endpoint, nonce: Bytes, aad: Option<Bytes>)
    requires Sound(p.crypto) && Authentic(p.crypto) && Genuine(p, s)
    requires receiver.role == Other(s.from) && KeyTellsEpoch(p, s, receiver) && |nonce| == 12
    ensures Opened(p, receiver, nonce, s.packet.sealed, aad)
         == Ok(if s.packet.epoch == receiver.epoch && nonce == s.packet.nonce && aad == s.aad then Some(s.text)
               else None)
  {
    assert Other(receiver.role) == s.from;
    var key, key' := KeyFor(p, s.packet.epoch, s.from), KeyFor(p, receiver.epoch, s.from);
    if (key, s.packet.nonce, s.aad) != (key', nonce, aad) {
      OthersRefused(p.crypto, key, s.packet.nonce, s.text, s.aad, key', nonce, aad);
    }
  }

  lemma OthersRefused(c: Crypto, key: Bytes, nonce: Bytes, text: Bytes, aad: Option<Bytes>,
                      key': Bytes, nonce': Bytes, aad': Option<Bytes>)
    requires Authentic(c) && (key, nonce, aad) != (key', nonce', aad')
    ensures c.open(key', nonce', c.seal(key, nonce, text, aad), aad') == None
  {
  }

  // ---------------------------------------------------------------------------
  // Repeated deliveries
  // ---------------------------------------------------------------------------

  function Delivery(s: Sent): Event {
    Receive(Other(s.from), s.packet.nonce, s.packet.sealed, s.aad)
  }

  function Deliveries(s: Sent, k: nat): (events: seq<Event>)
    ensures |events| == k
  {
    if k == 0 then [] else Deliveries(s, k - 1) + [Delivery(s)]
  }

  /** The peer after k deliveries of s: it has counted all of them, or none. */
  function Counting(n: Net, s: Sent, k: nat): Net {
    var receiver := EndOf(n, Other(s.from));
    WithEnd(n, Other(s.from),
            receiver.(recvCounter := receiver.recvCounter + if s.packet.epoch == receiver.epoch then k else 0))
  }

  lemma DeliveredAgain(p: Pairing, n: Net, s: Sent, k: nat)
    requires Sound(p.crypto) && Authentic(p.crypto) && Inv(p, n) && Genuine(p, s)
    requires KeyTellsEpoch(p, s, EndOf(n, Other(s.from)))
    ensures Step(p, Counting(n, s, k), Delivery(s)) == Counting(n, s, k + 1)
  {
    OpensExactly(p, s, EndOf(Counting(n, s, k), Other(s.from)), s.packet.nonce, s.aad);
  }

  /** A packet of the receiver's epoch is accepted every time it is delivered; one of another epoch never is. */
  lemma {:induction false} ReplaysAccepted(p: Pairing, events: seq<Event>, s: Sent, k: nat)
    requires Sound(p.crypto) && Authentic(p.crypto) && s in After(p, events).log
    requires KeyTellsEpoch(p, s, EndOf(After(p, events), Other(s.from)))
    ensures After(p, events + Deliveries(s, k)) == Counting(After(p, events), s, k)
  {
    if k == 0 {
      assert events + Deliveries(s, 0) == events;
    } else {
      ReplaysAccepted(p, events, s, k - 1);
      AfterOneMore(p, events + Deliveries(s, k - 1), Delivery(s));
      assert events + Deliveries(s, k) == events + Deliveries(s, k - 1) + [Delivery(s)];
      RunKeepsInv(p, events);
      DeliveredAgain(p, After(p, events), s, k - 1);
    }
  }

  lemma AfterOneMore(p: Pairing, events: seq<Event>, e: Event)
    requires Sound(p.crypto)
    ensures After(p, events + [e]) == Step(p, After(p, events), e)
  {
    assert (events + [e])[..|events + [e]| - 1] == events;
  }

  // ---------------------------------------------------------------------------
  // Synchronisation
  // ---------------------------------------------------------------------------

  function Rekeys(events: seq<Event>, role: Role): nat {
    if events == [] then 0
    else
      var last := events[|events| - 1];
      Rekeys(events[..|events| - 1], role) + if last.Rekey? && last.role == role then 1 else 0
  }

  lemma {:induction false} EpochIsRekeys(p: Pairing, events: seq<Event>, role: Role)
    requires Sound(p.crypto)
    ensures EndOf(After(p, events), role).epoch == Rekeys(events, role)
  {
    if events != [] {
      EpochIsRekeys(p, events[..|events| - 1], role);
    }
  }

  /** What either end sends next opens at the other if and only if both have rekeyed equally often: a rekey on one
      side cuts the channel in both directions until the other side has made up for it. */
  lemma NextOpensIff(p: Pairing, events: seq<Event>, from: Role, text: Bytes, aad: Option<Bytes>)
    requires Sound(p.crypto) && Authentic(p.crypto)
    requires var n := After(p, events + [Send(from, text, aad)]);
             n.log != [] ==> KeyTellsEpoch(p, n.log[|n.log| - 1], EndOf(n, Other(from)))
    ensures var n := After(p, events + [Send(from, text, aad)]);
            && n.log != []
            && var s := n.log[|n.log| - 1];
               (s.from, s.text, s.aad) == (from, text, aad)
               && Opened(p, EndOf(n, Other(from)), s.packet.nonce, s.packet.sealed, s.aad)
                  == Ok(if Rekeys(events, from) == Rekeys(events, Other(from)) then Some(text) else None)
  {
    var all := events + [Send(from, text, aad)];
    AfterOneMore(p, events, Send(from, text, aad));
    EpochIsRekeys(p, events, from);
    EpochIsRekeys(p, events, Other(from));
    var s := After(p, all).log[|After(p, all).log| - 1];
    OpensIff(p, all, |After(p, all).log| - 1, s.packet.nonce, s.aad);
  }

  // ---------------------------------------------------------------------------
  // There are such ciphers
  // ---------------------------------------------------------------------------

  /** Bytes followed by an end mark that no byte is taken for. */
  function Marked(b: Bytes): Bytes {
    if b == [] then [0] else [1, b[0]] + Marked(b[1..])
  }

  lemma {:induction false} MarkedUnique(a: Bytes, b: Bytes, r: Bytes, r': Bytes)
    requires Marked(a) + r == Marked(b) + r'
    ensures a == b && r == r'
  {
    assert Marked(a)[0] == (Marked(a) + r)[0] && Marked(b)[0] == (Marked(b) + r')[0];
    if a == [] {
      SplitEqual([0], [0], r, r');
    } else {
      var x, y := Marked(a[1..]) + r, Marked(b[1..]) + r';
      assert Marked(a) + r == [1, a[0]] + x && Marked(b) + r' == [1, b[0]] + y;
      SplitEqual([1, a[0]], [1, b[0]], x, y);
      MarkedUnique(a[1..], b[1..], r, r');
      assert a == [a[0]] + a[1..] && b == [b[0]] + b[1..];
    }
  }

  function MarkedAad(aad: Option<Bytes>): Bytes {
    if aad.None? then [0] else [1] + Marked(aad.value)
  }

  /** Everything that goes in, spelled out, with an empty tag. */
  function OpenSeal(key: Bytes, nonce: Bytes, text: Bytes, aad: Option<Bytes>): Sealed {
    Sealed(Marked(key) + (Marked(nonce) + (Marked(text) + MarkedAad(aad))), Hkdf.Zeros(16))
  }

  lemma OpenSealUnique(key: Bytes, nonce: Bytes, text: Bytes, aad: Option<Bytes>,
                       key': Bytes, nonce': Bytes, text': Bytes, aad': Option<Bytes>)
    requires OpenSeal(key, nonce, text, aad) == OpenSeal(key', nonce', text', aad')
    ensures key == key' && nonce == nonce' && text == text' && aad == aad'
  {
    var m, m' := Marked(text) + MarkedAad(aad), Marked(text') + MarkedAad(aad');
    MarkedUnique(key, key', Marked(nonce) + m, Marked(nonce') + m');
    MarkedUnique(nonce, nonce', m, m');
    MarkedUnique(text, text', MarkedAad(aad), MarkedAad(aad'));
    assert MarkedAad(aad)[0] == MarkedAad(aad')[0];
    if aad.Some? {
      SplitEqual([1], [1], Marked(aad.value), Marked(aad'.value));
      MarkedUnique(aad.value, aad'.value, [], []);
    }
  }

  ghost predicate Seals(text: Bytes, key: Bytes, nonce: Bytes, sealed: Sealed, aad: Option<Bytes>) {
    OpenSeal(key, nonce, text, aad) == sealed
  }

  ghost function Unsealed(key: Bytes, nonce: Bytes, sealed: Sealed, aad: Option<Bytes>): (r: Option<Bytes>)
    ensures r.Some? ==> Seals(r.value, key, nonce, sealed, aad)
    ensures r.None? ==> forall text :: !Seals(text, key, nonce, sealed, aad)
  {
    if text :| Seals(text, key, nonce, sealed, aad) then Some(text) else None
  }

  /** Some cipher is sound and authentic, with any hashes. */
  lemma AuthenticCipher(hashes: Hkdf.Primitives) returns (c: Crypto)
    requires Hkdf.Sound(hashes)
    ensures Sound(c) && Authentic(c) && c.hashes == hashes
  {
    c := Crypto(hashes, OpenSeal, Unsealed);
    forall key, nonce, text, aad ensures c.open(key, nonce, c.seal(key, nonce, text, aad), aad) == Some(text) {
      UnsealsExactly(key, nonce, text, aad, key, nonce, aad);
    }
    forall key, nonce, text, aad, key', nonce', aad' | (key, nonce, aad) != (key', nonce', aad')
      ensures c.open(key', nonce', c.seal(key, nonce, text, aad), aad') == None
    {
      UnsealsExactly(key, nonce, text, aad, key', nonce', aad');
    }
  }

  lemma UnsealsExactly(key: Bytes, nonce: Bytes, text: Bytes, aad: Option<Bytes>,
                       key': Bytes, nonce': Bytes, aad': Option<Bytes>)
    ensures Unsealed(key', nonce', OpenSeal(key, nonce, text, aad), aad')
         == if (key, nonce, aad) == (key', nonce', aad') then Some(text) else None
  {
    var sealed := OpenSeal(key, nonce, text, aad);
    var r := Unsealed(key', nonce', sealed, aad');
    if r.Some? {
      OpenSealUnique(key, nonce, text, aad, key', nonce', r.value, aad');
    } else {
      assert !Seals(text, key', nonce', sealed, aad');
    }
  }
}
