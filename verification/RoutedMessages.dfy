/**
 core/routing/layer.js, RoutedMessage: the hop list, the ttl, the wire form and hop signatures.
 */
module RoutedMessages {
  import opened Results

  const DEFAULT_TTL: int := 10
  const MAX_HOPS: nat := 15
  const ROUTED: string := "routed"

  datatype Hop = Hop(node: string, timestamp: nat)

  datatype HopSignature = HopSignature(hopIndex: int, nodeId: string, signature: string, timestamp: nat)

  /** An object of opaque texts, and the hop list that `sendRouted` adds to it under the name `route`. */
  datatype Metadata = Metadata(members: map<string, string>, route: Option<seq<string>>)

  /** The fields of a message. The payload is an opaque text. */
  datatype Message = Message(
    id: string, kind: string, from: string, to: string, payload: string,
    ttl: int, hops: seq<Hop>, signatures: seq<HopSignature>, createdAt: nat, metadata: Metadata)

  /** What travels: an object in which the members that the reader defaults may be missing. */
  datatype Wire = Wire(
    id: Option<string>, kind: Option<string>, from: string, to: string, payload: string,
    ttl: Option<int>, hops: Option<seq<Hop>>, signatures: Option<seq<HopSignature>>,
    createdAt: nat, metadata: Option<Metadata>)

  function ToWire(m: Message): Wire {
    Wire(Some(m.id), Some(m.kind), m.from, m.to, m.payload,
         Some(m.ttl), Some(m.hops), Some(m.signatures), m.createdAt, Some(m.metadata))
  }

  function TextOr(text: Option<string>, default: string): string {
    if text.None? || text.value == "" then default else text.value
  }

  /** A missing ttl and a ttl of 0 both read as the default. */
  function ReadTtl(ttl: Option<int>): int {
    if ttl.None? || ttl.value == 0 then DEFAULT_TTL else ttl.value
  }

  function MetadataOr(metadata: Option<Metadata>): Metadata {
    if metadata.None? then Metadata(map[], None) else metadata.value
  }

  function FromWire(w: Wire, freshId: string): Message {
    Message(TextOr(w.id, freshId), TextOr(w.kind, ROUTED), w.from, w.to, w.payload,
            ReadTtl(w.ttl),
            if w.hops.None? then [] else w.hops.value,
            if w.signatures.None? then [] else w.signatures.value,
            w.createdAt,
            MetadataOr(w.metadata))
  }

  /** Every message object has a name and a type: the constructor fills them in. */
  predicate Named(m: Message) {
    m.id != "" && m.kind != ""
  }

  /** Reading back what was written gives the same message exactly when its ttl is not 0. */
  lemma WireRoundTrip(m: Message, freshId: string)
    requires Named(m)
    ensures FromWire(ToWire(m), freshId) == m <==> m.ttl != 0
    ensures m.ttl == 0 ==> FromWire(ToWire(m), freshId) == m.(ttl := 10)
  {
  }

  /** What is missing on the wire is filled in. */
  lemma Defaults(from: string, to: string, payload: string, createdAt: nat, freshId: string)
    ensures FromWire(Wire(None, None, from, to, payload, None, None, None, createdAt, None), freshId)
         == Message(freshId, "routed", from, to, payload, 10, [], [], createdAt, Metadata(map[], None))
  {
  }

  function WithHop(m: Message, node: string, now: nat): Message {
    m.(hops := m.hops + [Hop(node, now)], ttl := m.ttl - 1)
  }

  predicate ShouldForward(m: Message) {
    m.ttl > 0 && |m.hops| < MAX_HOPS
  }

  predicate IsFor(m: Message, node: string) {
    m.to == node || m.to == "*"
  }

  // ---------------------------------------------------------------------------
  // Hop signatures
  // ---------------------------------------------------------------------------

  /** The members of the text that a hop signs. */
  datatype SignText = SignText(
    id: string, from: string, to: string, payload: string, ttl: int, hopIndex: int, hopNode: Option<string>)

  function HopNode(m: Message, hopIndex: int): Option<string> {
    if 0 <= hopIndex < |m.hops| then Some(m.hops[hopIndex].node) else None
  }

  function SigningText(m: Message, hopIndex: int): SignText {
    SignText(m.id, m.from, m.to, m.payload, m.ttl, hopIndex, HopNode(m, hopIndex))
  }

  /** A node's signing key, as the function from texts to signatures that it is. */
  datatype Identity = Identity(nodeId: string, sign: SignText -> string)

  function WithSignature(m: Message, identity: Identity, now: nat): Message {
    var hopIndex := |m.hops| - 1;
    var signature := identity.sign(SigningText(m, hopIndex));
    m.(signatures := m.signatures + [HopSignature(hopIndex, identity.nodeId, signature, now)])
  }

  /** The key lookup and the signature check of the receiver. */
  datatype Verifier = Verifier(keys: map<string, string>, verify: (SignText, string, string) -> bool)

  predicate SignatureValid(m: Message, v: Verifier, s: HopSignature) {
    && 0 <= s.hopIndex < |m.hops|
    && m.hops[s.hopIndex].node in v.keys
    && v.keys[m.hops[s.hopIndex].node] != ""
    && v.verify(SigningText(m, s.hopIndex), s.signature, v.keys[m.hops[s.hopIndex].node])
  }

  predicate SignaturesValid(m: Message, v: Verifier) {
    forall s <- m.signatures :: SignatureValid(m, v, s)
  }

  method VerifySignatures(m: Message, v: Verifier) returns (valid: bool)
    ensures valid == SignaturesValid(m, v)
  {
    var i := 0;
    while i < |m.signatures|
      invariant 0 <= i <= |m.signatures|
      invariant forall s <- m.signatures[..i] :: SignatureValid(m, v, s)
    {
      var s := m.signatures[i];
      assert s in m.signatures;
      if !(0 <= s.hopIndex < |m.hops|) {
        return false;
      }
      var node := m.hops[s.hopIndex].node;
      if node !in v.keys || v.keys[node] == "" {
        return false;
      }
      if !v.verify(SigningText(m, s.hopIndex), s.signature, v.keys[node]) {
        return false;
      }
      i := i + 1;
    }
    assert m.signatures == m.signatures[..i];
    return true;
  }

  /** Ideal signatures: the verifier knows the signer, and accepts a signature for one text only. */
  ghost predicate Recognises(v: Verifier, identity: Identity) {
    && identity.nodeId in v.keys
    && v.keys[identity.nodeId] != ""
    && (forall signed, checked ::
          v.verify(checked, identity.sign(signed), v.keys[identity.nodeId]) <==> checked == signed)
  }

  /** The signature that `signer` put on m at its last hop, over the text with the ttl m left with. */
  predicate SignedAtLastHop(m: Message, signer: Identity, s: HopSignature) {
    && m.hops != []
    && m.hops[|m.hops| - 1].node == signer.nodeId
    && s in m.signatures
    && s.hopIndex == |m.hops| - 1
    && s.signature == signer.sign(SigningText(m, |m.hops| - 1))
  }

  lemma SigningLeavesSignature(m: Message, signer: Identity, now: nat) returns (s: HopSignature)
    requires m.hops != [] && m.hops[|m.hops| - 1].node == signer.nodeId
    ensures SignedAtLastHop(WithSignature(m, signer, now), signer, s)
  {
    var signed := WithSignature(m, signer, now);
    s := signed.signatures[|m.signatures|];
    assert SigningText(signed, |m.hops| - 1) == SigningText(m, |m.hops| - 1);
  }

  /** What may happen to a signed message on its way: more hops and signatures, another ttl. */
  predicate Carries(signed: Message, later: Message) {
    && signed.hops <= later.hops && signed.signatures <= later.signatures
    && later.id == signed.id && later.from == signed.from && later.to == signed.to && later.payload == signed.payload
  }

  /**
   However far a message has travelled since a hop signed it, the signature verifies at a receiver if and only
   if the ttl that the receiver reads is the ttl that the hop signed.
   */
  lemma SignatureValidIff(signed: Message, signer: Identity, s: HopSignature, later: Message, v: Verifier,
                          freshId: string)
    requires Named(signed) && Named(later) && SignedAtLastHop(signed, signer, s) && Carries(signed, later)
    requires Recognises(v, signer)
    ensures var read := FromWire(ToWire(later), freshId);
            s in read.signatures && (SignatureValid(read, v, s) <==> ReadTtl(Some(later.ttl)) == signed.ttl)
  {
    var k := |signed.hops| - 1;
    var read := FromWire(ToWire(later), freshId);
    assert s in read.signatures by {
      var i :| 0 <= i < |signed.signatures| && signed.signatures[i] == s;
      assert read.signatures[i] == s;
    }
    assert read.hops[k] == signed.hops[k];
    assert SigningText(read, k) == SigningText(signed, k) <==> read.ttl == signed.ttl;
  }

  /**
   What a hop signature binds: whatever else has become of the message, it verifies exactly where the id, both ends,
   the payload and the ttl are those that were signed.
   */
  lemma HopSignatureBinds(signed: Message, signer: Identity, s: HopSignature, m: Message, v: Verifier)
    requires SignedAtLastHop(signed, signer, s) && Recognises(v, signer)
    requires s.hopIndex < |m.hops| && m.hops[s.hopIndex].node == signer.nodeId
    ensures SignatureValid(m, v, s) <==>
            && m.id == signed.id && m.from == signed.from && m.to == signed.to
            && m.payload == signed.payload && m.ttl == signed.ttl
  {
  }

  /** The first hop's signature verifies at its receiver exactly when the message was not sent with ttl 1. */
  lemma FirstHopVerifies(m: Message, identity: Identity, v: Verifier, now: nat, signedAt: nat, freshId: string)
    requires Named(m) && m.hops == [] && m.signatures == []
    requires Recognises(v, identity)
    ensures var sent := WithSignature(WithHop(m, identity.nodeId, now), identity, signedAt);
            SignaturesValid(FromWire(ToWire(sent), freshId), v) <==> m.ttl != 1
  {
    var hopped := WithHop(m, identity.nodeId, now);
    var sent := WithSignature(hopped, identity, signedAt);
    var s := SigningLeavesSignature(hopped, identity, signedAt);
    SignatureValidIff(sent, identity, s, sent, v, freshId);
    assert FromWire(ToWire(sent), freshId).signatures == [s];
  }

  /** One relay lowers the ttl read, so the signature of the hop before it does not verify any more. */
  lemma RelayInvalidates(m: Message, signer: Identity, s: HopSignature, v: Verifier, relayed: Message, freshId: string)
    requires Named(m) && Named(relayed) && SignedAtLastHop(m, signer, s) && Recognises(v, signer)
    requires Carries(m, relayed) && relayed.ttl == ReadTtl(Some(m.ttl)) - 1
    ensures !SignaturesValid(FromWire(ToWire(relayed), freshId), v)
  {
    SignatureValidIff(m, signer, s, relayed, v, freshId);
  }

  // ---------------------------------------------------------------------------
  // The message object
  // ---------------------------------------------------------------------------

  class RoutedMessage {
    var id: string
    var kind: string
    var from: string
    var to: string
    var payload: string
    var ttl: int
    var hops: seq<Hop>
    var signatures: seq<HopSignature>
    var createdAt: nat
    var metadata: Metadata

    function Value(): Message
      reads this
    {
      Message(id, kind, from, to, payload, ttl, hops, signatures, createdAt, metadata)
    }

    /** The members of the options object that are absent take their defaults. */
    constructor (id: Option<string>, kind: Option<string>, from: string, to: string, payload: string,
                 ttl: Option<int>, hops: Option<seq<Hop>>, metadata: Option<Metadata>, freshId: string, now: nat)
      ensures Value() == Message(TextOr(id, freshId), TextOr(kind, ROUTED), from, to, payload, ReadTtl(ttl),
                                 if hops.None? then [] else hops.value, [], now, MetadataOr(metadata))
    {
      this.id := TextOr(id, freshId);
      this.kind := TextOr(kind, ROUTED);
      this.from, this.to, this.payload := from, to, payload;
      this.ttl := ReadTtl(ttl);
      this.hops := if hops.None? then [] else hops.value;
      this.signatures := [];
      this.createdAt := now;
      this.metadata := MetadataOr(metadata);
    }

    static method FromJson(data: Wire, freshId: string, now: nat) returns (m: RoutedMessage)
      ensures fresh(m) && m.Value() == FromWire(data, freshId)
    {
      m := new RoutedMessage(data.id, data.kind, data.from, data.to, data.payload, data.ttl, None, data.metadata,
                             freshId, now);
      m.hops := if data.hops.None? then [] else data.hops.value;
      m.signatures := if data.signatures.None? then [] else data.signatures.value;
      m.createdAt := data.createdAt;
    }

    function ToJson(): (w: Wire)
      reads this
      ensures Named(Value()) && ttl != 0 ==> forall freshId :: FromWire(w, freshId) == Value()
    {
      ToWire(Value())
    }

    method AddHop(node: string, now: nat) returns (r: Result<()>)
      modifies `hops, `ttl
      ensures r.Ok? <==> |old(hops)| < 15
      ensures Value() == if r.Ok? then WithHop(old(Value()), node, now) else old(Value())
    {
      if |hops| >= MAX_HOPS {
        return Err("Maximum hops exceeded");
      }
      hops := hops + [Hop(node, now)];
      ttl := ttl - 1;
      return Ok(());
    }

    method AddSignature(identity: Identity, now: nat)
      modifies `signatures
      ensures Value() == WithSignature(old(Value()), identity, now)
    {
      var hopIndex := |hops| - 1;
      var signature := identity.sign(SigningText(Value(), hopIndex));
      signatures := signatures + [HopSignature(hopIndex, identity.nodeId, signature, now)];
    }
  }
}
