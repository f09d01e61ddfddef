/**
 Signed routing packets, core/crypto/routing.js: what is signed, and when a packet that has
 travelled as JSON verifies.
 */
module RoutingPacket {
  import opened JsonText
  import opened CanonicalJson
  import opened PrintedJson
  import opened Results

  // The member names, in UTF-16 code units.
  const VERSION: Text := [118, 101, 114, 115, 105, 111, 110]
  const NODE_ID: Text := [110, 111, 100, 101, 95, 105, 100]
  const TS: Text := [116, 115]
  const NONCE: Text := [110, 111, 110, 99, 101]
  const PAYLOAD: Text := [112, 97, 121, 108, 111, 97, 100]
  const SIGNATURE: Text := [115, 105, 103, 110, 97, 116, 117, 114, 101]

  /** nz-routing-crypto-01 */
  const PROTOCOL: Text := [110, 122, 45, 114, 111, 117, 116, 105, 110, 103, 45, 99, 114, 121, 112, 116, 111, 45, 48, 49]

  /** Ed25519 over the UTF-8 bytes of a text, with base64 signatures; uninterpreted. */
  datatype Signatures<!Seed, !Key> = Signatures(
    sign: (Text, Seed) -> Text,
    verify: (Text, Json, Key) -> bool,
    publicKey: Seed -> Key)

  ghost predicate Sound<Seed(!new), Key(!new)>(c: Signatures<Seed, Key>) {
    forall text, seed :: c.sign(text, seed) != [] && c.verify(text, Str(c.sign(text, seed)), c.publicKey(seed))
  }

  predicate InWindow(sent: int, maxSkewSec: int, now: int) {
    -maxSkewSec * 1000 <= now - sent <= maxSkewSec * 1000
  }

  datatype Verdict = Accepted(nodeId: Json, payload: Json) | Rejected(reason: string)

  predicate Falsy(v: Json) {
    v == Undefined || v == Null || v == Bool(false) || v == Num(0) || v == Str([])
  }

  function Lookup(ms: seq<Member>, key: Text): Json {
    if ms == [] then Undefined
    else if ms[0].key == key then ms[0].value
    else Lookup(ms[1..], key)
  }

  /** Property access: undefined where there is no such member, or no object. */
  function Field(p: Json, key: Text): Json {
    if p.Obj? then Lookup(p.members, key) else Undefined
  }

  function FiveFields(version: Json, nodeId: Json, ts: Json, nonce: Json, payload: Json): Json {
    Obj([Member(VERSION, version), Member(NODE_ID, nodeId), Member(TS, ts), Member(NONCE, nonce),
         Member(PAYLOAD, payload)])
  }

  function SignedFields(p: Json): Json {
    FiveFields(Field(p, VERSION), Field(p, NODE_ID), Field(p, TS), Field(p, NONCE), Field(p, PAYLOAD))
  }

  function SigningText(p: Json): Text {
    Stringify(SignedFields(p))
  }

  function UnsignedPacket(nodeId: Json, payload: Json, now: int, nonce: Text): Json {
    FiveFields(Str(PROTOCOL), nodeId, Num(now), Str(nonce), payload)
  }

  function SignPacket<Seed, Key>(c: Signatures<Seed, Key>, nodeId: Json, seed: Seed, payload: Json,
                                 now: int, nonce: Text): Json
  {
    var packet := UnsignedPacket(nodeId, payload, now, nonce);
    Obj(packet.members + [Member(SIGNATURE, Str(c.sign(SigningText(packet), seed)))])
  }

  function VerifyPacket<Seed, Key>(c: Signatures<Seed, Key>, packet: Json, keyOf: Json -> Option<Key>,
                                   maxSkewSec: int, now: int): Verdict
  {
    if Field(packet, VERSION) != Str(PROTOCOL) then Rejected("unsupported-version")
    else if Falsy(Field(packet, NODE_ID)) then Rejected("missing-node-id")
    else if !Field(packet, TS).Num? then Rejected("invalid-ts")
    else if Falsy(Field(packet, NONCE)) then Rejected("invalid-nonce")
    else if Falsy(Field(packet, SIGNATURE)) then Rejected("missing-signature")
    else
      var skew := now - Field(packet, TS).n;
      if (if skew >= 0 then skew else -skew) > maxSkewSec * 1000 then Rejected("ts-skew")
      else
        match keyOf(Field(packet, NODE_ID))
        case None => Rejected("unknown-node")
        case Some(key) =>
          if c.verify(SigningText(packet), Field(packet, SIGNATURE), key)
          then Accepted(Field(packet, NODE_ID), Field(packet, PAYLOAD))
          else Rejected("invalid-signature")
  }

  /** The values that `!value` holds for in JavaScript. */
  const FALSY: set<Json> := {Undefined, Null, Bool(false), Num(0), Str([])}

  /** Exactly what a packet needs to be accepted, whoever made it. */
  lemma AcceptedIff<Seed, Key>(c: Signatures<Seed, Key>, packet: Json, keyOf: Json -> Option<Key>, maxSkewSec: int,
                               now: int)
    ensures var nodeId := Field(packet, NODE_ID);
            VerifyPacket(c, packet, keyOf, maxSkewSec, now).Accepted? <==>
            && Field(packet, VERSION) == Str(PROTOCOL)
            && nodeId !in FALSY && Field(packet, NONCE) !in FALSY && Field(packet, SIGNATURE) !in FALSY
            && Field(packet, TS).Num? && InWindow(Field(packet, TS).n, maxSkewSec, now)
            && keyOf(nodeId).Some? && c.verify(SigningText(packet), Field(packet, SIGNATURE), keyOf(nodeId).value)
  {
  }

  // ---------------------------------------------------------------------------
  // Fields of reordered packets
  // ---------------------------------------------------------------------------

  lemma {:induction false} LookupFound(ms: seq<Member>, key: Text, i: nat)
    requires i < |ms| && ms[i].key == key
    requires forall a, b :: 0 <= a < b < |ms| ==> ms[a].key != ms[b].key
    ensures Lookup(ms, key) == ms[i].value
  {
    if i != 0 {
      LookupFound(ms[1..], key, i - 1);
    }
  }

  lemma {:induction false} LookupMissing(ms: seq<Member>, key: Text)
    requires forall i :: 0 <= i < |ms| ==> ms[i].key != key
    ensures Lookup(ms, key) == Undefined
  {
    if ms != [] {
      LookupMissing(ms[1..], key);
    }
  }

  lemma FieldEquivalent(p: Json, w: Json, key: Text)
    requires p.Obj? && WellKeyed(p) && WellKeyed(w) && Equivalent(p, w)
    ensures Equivalent(Field(p, key), Field(w, key))
  {
    if i :| 0 <= i < |p.members| && p.members[i].key == key {
      assert HasPartner(p.members[i], w.members);
      var j :| 0 <= j < |w.members| && SameMember(p.members[i], w.members[j]);
      LookupFound(p.members, key, i);
      LookupFound(w.members, key, j);
    } else {
      forall j | 0 <= j < |w.members| ensures w.members[j].key != key {
        assert HasOrigin(p.members, w.members[j]);
      }
      LookupMissing(p.members, key);
      LookupMissing(w.members, key);
    }
  }

  lemma {:induction false} LookupWellKeyed(ms: seq<Member>, key: Text)
    requires forall i :: 0 <= i < |ms| ==> WellKeyed(ms[i].value)
    ensures WellKeyed(Lookup(ms, key))
  {
    if ms != [] && ms[0].key != key {
      LookupWellKeyed(ms[1..], key);
    }
  }

  lemma FieldWellKeyed(p: Json, key: Text)
    requires WellKeyed(p)
    ensures WellKeyed(Field(p, key))
  {
    if p.Obj? {
      LookupWellKeyed(p.members, key);
    }
  }

  lemma KeysDiffer()
    ensures VERSION[0] == 118 && NODE_ID[0] == 110 && TS[0] == 116 && NONCE[0] == 110 && PAYLOAD[0] == 112
    ensures SIGNATURE[0] == 115 && |NODE_ID| != |NONCE|
  {
  }

  /** The members of a packet, signed or not, have six different names. */
  predicate PacketNames(ms: seq<Member>) {
    && 5 <= |ms| <= 6
    && ms[0].key == VERSION && ms[1].key == NODE_ID && ms[2].key == TS && ms[3].key == NONCE && ms[4].key == PAYLOAD
    && (|ms| == 6 ==> ms[5].key == SIGNATURE)
  }

  lemma NamesDistinct(ms: seq<Member>)
    requires PacketNames(ms)
    ensures forall a, b :: 0 <= a < b < |ms| ==> ms[a].key != ms[b].key
  {
    KeysDiffer();
  }

  lemma FindFields(ms: seq<Member>)
    requires PacketNames(ms)
    ensures Lookup(ms, VERSION) == ms[0].value && Lookup(ms, NODE_ID) == ms[1].value && Lookup(ms, TS) == ms[2].value
    ensures Lookup(ms, NONCE) == ms[3].value && Lookup(ms, PAYLOAD) == ms[4].value
  {
    NamesDistinct(ms);
    LookupFound(ms, VERSION, 0);
    LookupFound(ms, NODE_ID, 1);
    LookupFound(ms, TS, 2);
    LookupFound(ms, NONCE, 3);
    LookupFound(ms, PAYLOAD, 4);
  }

  /** All five signed fields print alike. */
  ghost predicate SameFields(p: Json, w: Json) {
    && Alike(Field(p, VERSION), Field(w, VERSION)) && Alike(Field(p, NODE_ID), Field(w, NODE_ID))
    && Alike(Field(p, TS), Field(w, TS)) && Alike(Field(p, NONCE), Field(w, NONCE))
    && Alike(Field(p, PAYLOAD), Field(w, PAYLOAD))
  }

  lemma SignedFieldsWellKeyed(p: Json)
    requires WellKeyed(p)
    ensures WellKeyed(SignedFields(p))
  {
    NamesDistinct(SignedFields(p).members);
    FieldWellKeyed(p, VERSION);
    FieldWellKeyed(p, NODE_ID);
    FieldWellKeyed(p, TS);
    FieldWellKeyed(p, NONCE);
    FieldWellKeyed(p, PAYLOAD);
  }

  ghost predicate SameNames(ms: seq<Member>, ns: seq<Member>) {
    && |ms| == |ns|
    && (forall i :: 0 <= i < |ms| ==> ms[i].key == ns[i].key)
    && (forall a, b :: 0 <= a < b < |ms| ==> ms[a].key != ms[b].key)
  }

  lemma SamePlace(ms: seq<Member>, i: nat, j: nat)
    requires forall a, b :: 0 <= a < b < |ms| ==> ms[a].key != ms[b].key
    requires i < |ms| && j < |ms| && ms[i].key == ms[j].key
    ensures i == j
  {
  }

  lemma MemberEquivalent(ms: seq<Member>, ns: seq<Member>, i: nat)
    requires SameNames(ms, ns) && i < |ms| && HasPartner(ms[i], ns)
    ensures Equivalent(ms[i].value, ns[i].value)
  {
    var j: nat :| j < |ns| && SameMember(ms[i], ns[j]);
    SamePlace(ms, i, j);
  }

  lemma MembersEquivalent(ms: seq<Member>, ns: seq<Member>)
    requires |ms| == |ns| && forall i :: 0 <= i < |ms| ==> SameMember(ms[i], ns[i])
    ensures Equivalent(Obj(ms), Obj(ns))
  {
    forall i | 0 <= i < |ms| ensures HasPartner(ms[i], ns) && HasOrigin(ms, ns[i]) {
      assert SameMember(ms[i], ns[i]);
    }
  }

  /** The members of the signed text of p, each of its five fields read as Norm does. */
  ghost predicate NormedFields(p: Json, ms: seq<Member>) {
    && |ms| == 5 && PacketNames(ms)
    && ms[0].value == Norm(Field(p, VERSION)) && ms[1].value == Norm(Field(p, NODE_ID))
    && ms[2].value == Norm(Field(p, TS)) && ms[3].value == Norm(Field(p, NONCE))
    && ms[4].value == Norm(Field(p, PAYLOAD))
  }

  lemma NormOfFields(p: Json) returns (ms: seq<Member>)
    ensures Norm(SignedFields(p)) == Obj(ms) && NormedFields(p, ms)
  {
    ms := Norm(SignedFields(p)).members;
    assert |SignedFields(p).members| == 5;
  }

  lemma NamesAgree(ms: seq<Member>, ns: seq<Member>)
    requires PacketNames(ms) && PacketNames(ns) && |ms| == |ns|
    ensures SameNames(ms, ns)
  {
    NamesDistinct(ms);
  }

  ghost predicate FiveSame(ms: seq<Member>, ns: seq<Member>)
    requires |ms| == |ns| == 5
  {
    && Equivalent(ms[0].value, ns[0].value) && Equivalent(ms[1].value, ns[1].value)
    && Equivalent(ms[2].value, ns[2].value) && Equivalent(ms[3].value, ns[3].value)
    && Equivalent(ms[4].value, ns[4].value)
  }

  /** Five fields under their names are equivalent field by field. */
  lemma FiveEquivalent(ms: seq<Member>, ns: seq<Member>)
    requires |ms| == |ns| == 5 && SameNames(ms, ns)
    ensures Equivalent(Obj(ms), Obj(ns)) <==> FiveSame(ms, ns)
  {
    if FiveSame(ms, ns) {
      assert forall i :: 0 <= i < 5 ==> SameMember(ms[i], ns[i]);
      MembersEquivalent(ms, ns);
    } else if Equivalent(Obj(ms), Obj(ns)) {
      forall i: nat | i < 5 ensures Equivalent(ms[i].value, ns[i].value) {
        MemberEquivalent(ms, ns, i);
      }
    }
  }

  lemma FieldsAlike(p: Json, w: Json, ms: seq<Member>, ns: seq<Member>)
    requires NormedFields(p, ms) && NormedFields(w, ns)
    ensures Equivalent(Obj(ms), Obj(ns)) <==> SameFields(p, w)
  {
    NamesAgree(ms, ns);
    FiveEquivalent(ms, ns);
  }

  lemma SignedFieldsAlike(p: Json, w: Json)
    ensures Alike(SignedFields(p), SignedFields(w)) <==> SameFields(p, w)
  {
    var ms := NormOfFields(p);
    var ns := NormOfFields(w);
    FieldsAlike(p, w, ms, ns);
  }

  /** The signed bytes pin down exactly the five signed fields, as far as their texts do. */
  lemma SigningTextExact(p: Json, w: Json)
    requires WellKeyed(p) && WellKeyed(w)
    ensures SigningText(p) == SigningText(w) <==> SameFields(p, w)
  {
    SignedFieldsWellKeyed(p);
    SignedFieldsWellKeyed(w);
    SignedFieldsAlike(p, w);
    PrintsAlikeIff(SignedFields(p), SignedFields(w));
  }

  /** A freshly signed packet, its members reordered at any depth, is accepted exactly inside the skew
      window (given a node id and nonce that are not empty), with its own node id and payload. */
  lemma ReorderedPacketVerifies<Seed(!new), Key(!new)>(
      c: Signatures<Seed, Key>, nodeId: Text, seed: Seed, payload: Json, sent: int, nonce: Text,
      p: Json, w: Json, keyOf: Json -> Option<Key>, maxSkewSec: int, now: int)
    requires Sound(c) && WellKeyed(payload)
    requires p == SignPacket(c, Str(nodeId), seed, payload, sent, nonce)
    requires WellKeyed(w) && Equivalent(p, w)
    requires keyOf(Str(nodeId)) == Some(c.publicKey(seed))
    ensures var verdict := VerifyPacket(c, w, keyOf, maxSkewSec, now);
            && (verdict.Accepted? <==> nodeId != [] && nonce != [] && InWindow(sent, maxSkewSec, now))
            && (verdict.Accepted? ==> verdict.nodeId == Str(nodeId) && Equivalent(payload, verdict.payload))
  {
    SignedPacketFields(c, Str(nodeId), seed, payload, sent, nonce);
    var text := SigningText(UnsignedPacket(Str(nodeId), payload, sent, nonce));
    GoodSignature(c, text, seed);
    TravelledFields(p, w, nodeId, sent, nonce, c.sign(text, seed));
    Decides(c, w, keyOf, maxSkewSec, now, nodeId, sent, nonce, c.sign(text, seed), c.publicKey(seed));
  }

  lemma TravelledFields(p: Json, w: Json, nodeId: Text, sent: int, nonce: Text, signature: Text)
    requires p.Obj? && WellKeyed(p) && WellKeyed(w) && Equivalent(p, w)
    requires Field(p, VERSION) == Str(PROTOCOL) && Field(p, NODE_ID) == Str(nodeId) && Field(p, TS) == Num(sent)
    requires Field(p, NONCE) == Str(nonce) && Field(p, SIGNATURE) == Str(signature)
    ensures Field(w, VERSION) == Str(PROTOCOL) && Field(w, NODE_ID) == Str(nodeId) && Field(w, TS) == Num(sent)
    ensures Field(w, NONCE) == Str(nonce) && Field(w, SIGNATURE) == Str(signature)
    ensures SigningText(w) == SigningText(p) && Equivalent(Field(p, PAYLOAD), Field(w, PAYLOAD))
  {
    ReorderedFields(p, w);
  }

  lemma GoodSignature<Seed(!new), Key(!new)>(c: Signatures<Seed, Key>, text: Text, seed: Seed)
    requires Sound(c)
    ensures c.sign(text, seed) != [] && c.verify(text, Str(c.sign(text, seed)), c.publicKey(seed))
  {
  }

  lemma Decides<Seed, Key>(c: Signatures<Seed, Key>, w: Json, keyOf: Json -> Option<Key>, maxSkewSec: int, now: int,
                           nodeId: Text, sent: int, nonce: Text, signature: Text, key: Key)
    requires Field(w, VERSION) == Str(PROTOCOL) && Field(w, NODE_ID) == Str(nodeId) && Field(w, TS) == Num(sent)
    requires Field(w, NONCE) == Str(nonce) && Field(w, SIGNATURE) == Str(signature) && signature != []
    requires keyOf(Str(nodeId)) == Some(key) && c.verify(SigningText(w), Str(signature), key)
    ensures VerifyPacket(c, w, keyOf, maxSkewSec, now).Accepted? <==>
            nodeId != [] && nonce != [] && InWindow(sent, maxSkewSec, now)
    ensures VerifyPacket(c, w, keyOf, maxSkewSec, now).Accepted? ==>
            VerifyPacket(c, w, keyOf, maxSkewSec, now) == Accepted(Str(nodeId), Field(w, PAYLOAD))
  {
  }

  lemma ReorderedFields(p: Json, w: Json)
    requires p.Obj? && WellKeyed(p) && WellKeyed(w) && Equivalent(p, w)
    ensures SigningText(w) == SigningText(p) && Equivalent(Field(p, VERSION), Field(w, VERSION))
    ensures Equivalent(Field(p, NODE_ID), Field(w, NODE_ID)) && Equivalent(Field(p, TS), Field(w, TS))
    ensures Equivalent(Field(p, NONCE), Field(w, NONCE)) && Equivalent(Field(p, PAYLOAD), Field(w, PAYLOAD))
    ensures Equivalent(Field(p, SIGNATURE), Field(w, SIGNATURE))
  {
    ReorderedField(p, w, VERSION);
    ReorderedField(p, w, NODE_ID);
    ReorderedField(p, w, TS);
    ReorderedField(p, w, NONCE);
    ReorderedField(p, w, PAYLOAD);
    ReorderedField(p, w, SIGNATURE);
    SigningTextExact(p, w);
  }

  lemma ReorderedField(p: Json, w: Json, key: Text)
    requires p.Obj? && WellKeyed(p) && WellKeyed(w) && Equivalent(p, w)
    ensures Equivalent(Field(p, key), Field(w, key)) && Alike(Field(p, key), Field(w, key))
  {
    FieldEquivalent(p, w, key);
    EquivalentAreAlike(Field(p, key), Field(w, key));
  }

  /** What a packet carries, and that its signature is outside the signed text. */
  lemma SignedMembers(us: seq<Member>, signature: Json)
    requires PacketNames(us) && |us| == 5 && WellKeyed(signature)
    requires forall i :: 0 <= i < |us| ==> WellKeyed(us[i].value)
    ensures var p := Obj(us + [Member(SIGNATURE, signature)]);
            WellKeyed(p) && SigningText(p) == SigningText(Obj(us)) && Field(p, SIGNATURE) == signature
  {
    var ms := us + [Member(SIGNATURE, signature)];
    FindFields(us);
    FindFields(ms);
    NamesDistinct(ms);
    LookupFound(ms, SIGNATURE, 5);
  }

  lemma SignedPacketFields<Seed(!new), Key(!new)>(c: Signatures<Seed, Key>, nodeId: Json, seed: Seed,
                                                  payload: Json, now: int, nonce: Text)
    requires WellKeyed(nodeId) && WellKeyed(payload)
    ensures var u := UnsignedPacket(nodeId, payload, now, nonce);
            var p := SignPacket(c, nodeId, seed, payload, now, nonce);
            && WellKeyed(p) && SigningText(p) == SigningText(u)
            && Field(p, VERSION) == Str(PROTOCOL) && Field(p, NODE_ID) == nodeId && Field(p, TS) == Num(now)
            && Field(p, NONCE) == Str(nonce) && Field(p, PAYLOAD) == payload
            && Field(p, SIGNATURE) == Str(c.sign(SigningText(u), seed))
  {
    var u := UnsignedPacket(nodeId, payload, now, nonce);
    SignedMembers(u.members, Str(c.sign(SigningText(u), seed)));
    FindFields(SignPacket(c, nodeId, seed, payload, now, nonce).members);
  }

  // ---------------------------------------------------------------------------
  // Changed packets
  // ---------------------------------------------------------------------------

  /** Ideal signatures: what was signed under a seed verifies for its own text and for no other. */
  ghost predicate Ideal<Seed(!new), Key(!new)>(c: Signatures<Seed, Key>) {
    && (forall text, seed :: c.sign(text, seed) != [])
    && (forall text, other, seed ::
          c.verify(other, Str(c.sign(text, seed)), c.publicKey(seed)) <==> other == text)
  }

  /** Checks other than that of the signature. */
  lemma AcceptedMeans<Seed, Key>(c: Signatures<Seed, Key>, w: Json, keyOf: Json -> Option<Key>, maxSkewSec: int,
                                 now: int, key: Key)
    requires keyOf(Field(w, NODE_ID)) == Some(key)
    requires VerifyPacket(c, w, keyOf, maxSkewSec, now).Accepted?
    ensures c.verify(SigningText(w), Field(w, SIGNATURE), key)
  {
  }

  /** A string or number is alike to itself only. */
  lemma SameScalars(p: Json, w: Json)
    requires SameFields(p, w) && Field(p, VERSION).Str? && Field(p, NODE_ID).Str? && Field(p, TS).Num?
    requires Field(p, NONCE).Str?
    ensures Field(w, VERSION) == Field(p, VERSION) && Field(w, NODE_ID) == Field(p, NODE_ID)
    ensures Field(w, TS) == Field(p, TS) && Field(w, NONCE) == Field(p, NONCE)
  {
  }

  /**
   Whatever a receiver is handed with the signature of a packet, under its signer's key: it accepts if and only
   if all five signed fields are those of the packet, up to member order, and the clock is in the window.
   */
  lemma TamperedPacketRejected<Seed(!new), Key(!new)>(
      c: Signatures<Seed, Key>, nodeId: Text, seed: Seed, payload: Json, sent: int, nonce: Text,
      p: Json, w: Json, keyOf: Json -> Option<Key>, maxSkewSec: int, now: int)
    requires Ideal(c) && WellKeyed(payload)
    requires p == SignPacket(c, Str(nodeId), seed, payload, sent, nonce)
    requires WellKeyed(w) && Field(w, SIGNATURE) == Field(p, SIGNATURE)
    requires keyOf(Field(w, NODE_ID)) == Some(c.publicKey(seed))
    ensures VerifyPacket(c, w, keyOf, maxSkewSec, now).Accepted? <==>
            SameFields(p, w) && nodeId != [] && nonce != [] && InWindow(sent, maxSkewSec, now)
    ensures var verdict := VerifyPacket(c, w, keyOf, maxSkewSec, now);
            verdict.Accepted? ==> verdict.nodeId == Str(nodeId) && Alike(payload, verdict.payload)
  {
    SignedPacketFields(c, Str(nodeId), seed, payload, sent, nonce);
    var text, key := SigningText(UnsignedPacket(Str(nodeId), payload, sent, nonce)), c.publicKey(seed);
    SigningTextExact(p, w);
    IdealVerifies(c, text, SigningText(w), seed);
    if SameFields(p, w) {
      SameScalars(p, w);
      Decides(c, w, keyOf, maxSkewSec, now, nodeId, sent, nonce, c.sign(text, seed), key);
    } else if VerifyPacket(c, w, keyOf, maxSkewSec, now).Accepted? {
      AcceptedMeans(c, w, keyOf, maxSkewSec, now, key);
    }
  }

  lemma IdealVerifies<Seed(!new), Key(!new)>(c: Signatures<Seed, Key>, text: Text, other: Text, seed: Seed)
    requires Ideal(c)
    ensures c.sign(text, seed) != []
    ensures c.verify(other, Str(c.sign(text, seed)), c.publicKey(seed)) <==> other == text
  {
  }

  /** A signature that was not forged: the texts it verifies for under a key are texts of packets signed with it. */
  ghost predicate Unforged<Seed(!new), Key(!new)>(c: Signatures<Seed, Key>, key: Key, signature: Json,
                                                  signed: seq<Json>)
  {
    forall text :: c.verify(text, signature, key) ==> TextSigned(text, signed)
  }

  ghost predicate TextSigned(text: Text, signed: seq<Json>) {
    exists i :: 0 <= i < |signed| && SigningText(signed[i]) == text
  }

  /** Under ideal signatures the signature of every signed packet is unforged. */
  lemma OwnSignatureUnforged<Seed(!new), Key(!new)>(
      c: Signatures<Seed, Key>, nodeId: Json, seed: Seed, payload: Json, sent: int, nonce: Text, signed: seq<Json>)
    requires Ideal(c) && WellKeyed(nodeId) && WellKeyed(payload)
    requires SignPacket(c, nodeId, seed, payload, sent, nonce) in signed
    ensures var p := SignPacket(c, nodeId, seed, payload, sent, nonce);
            Unforged(c, c.publicKey(seed), Field(p, SIGNATURE), signed)
  {
    SignedPacketFields(c, nodeId, seed, payload, sent, nonce);
    var p := SignPacket(c, nodeId, seed, payload, sent, nonce);
    var own := SigningText(UnsignedPacket(nodeId, payload, sent, nonce));
    forall text | c.verify(text, Field(p, SIGNATURE), c.publicKey(seed)) ensures TextSigned(text, signed) {
      IdealVerifies(c, own, text, seed);
      var i :| 0 <= i < |signed| && signed[i] == p;
    }
  }

  /** There are ideal signatures, and they are sound: a signature may spell out its text. */
  lemma IdealSignatures() returns (c: Signatures<int, int>)
    ensures Ideal(c) && Sound(c)
  {
    c := Signatures((text, seed) => [0] + text, (text, signature, key) => signature == Str([0] + text), seed => seed);
    forall text: Text, other: Text ensures [0] + text == [0] + other <==> text == other {
      assert ([0] + text)[1..] == text && ([0] + other)[1..] == other;
    }
  }

  /** Whatever is accepted with an unforged signature has the fields of a packet that the owner of the key signed. */
  lemma AcceptedWasSigned<Seed(!new), Key(!new)>(
      c: Signatures<Seed, Key>, key: Key, signed: seq<Json>, w: Json, keyOf: Json -> Option<Key>, maxSkewSec: int,
      now: int)
    requires Unforged(c, key, Field(w, SIGNATURE), signed) && (forall i :: 0 <= i < |signed| ==> WellKeyed(signed[i]))
    requires WellKeyed(w) && keyOf(Field(w, NODE_ID)) == Some(key)
    requires VerifyPacket(c, w, keyOf, maxSkewSec, now).Accepted?
    ensures exists i :: 0 <= i < |signed| && SameFields(signed[i], w)
  {
    AcceptedMeans(c, w, keyOf, maxSkewSec, now, key);
    var i :| 0 <= i < |signed| && SigningText(signed[i]) == SigningText(w);
    SigningTextExact(signed[i], w);
  }
}
