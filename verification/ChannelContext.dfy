/**
 The names that separate one key from another: the context strings of core/crypto/channel.js and
 core/crypto/derive.js, as UTF-8 bytes, and the nonces under one key.
 */
module ChannelContext {
  import Hkdf
  import opened Results
  import opened Strings

  datatype Role = Alice | Bob

  function Ascii(s: string): (b: Bytes)
    requires forall i :: 0 <= i < |s| ==> s[i] as int < 128
    ensures |b| == |s|
  {
    seq(|s|, i requires 0 <= i < |s| => s[i] as int)
  }

  // ---------------------------------------------------------------------------
  // Contexts
  // ---------------------------------------------------------------------------

  function EpochPrefix(base: Bytes): (p: Bytes)
    ensures p != [] && !IsDigit(p[|p| - 1])
  {
    base + Ascii("/epoch-")
  }

  function EpochContext(base: Bytes, epoch: nat): Bytes {
    EpochPrefix(base) + Digits(epoch)
  }

  /** The direction of travel: from the given role to the other one. */
  function DirectionSuffix(from: Role): (b: Bytes)
    ensures |b| == 11
  {
    match from
    case Alice => Ascii("/alice->bob")
    case Bob => Ascii("/bob->alice")
  }

  function Context(base: Bytes, epoch: nat, from: Role): Bytes {
    EpochContext(base, epoch) + DirectionSuffix(from)
  }

  lemma DirectionInjective(a: Role, b: Role)
    requires DirectionSuffix(a) == DirectionSuffix(b)
    ensures a == b
  {
    assert Ascii("/alice->bob")[1] == 97 && Ascii("/bob->alice")[1] == 98;
  }

  lemma SplitFront(x: Bytes, y: Bytes, r: Bytes, r': Bytes)
    requires x + r == y + r' && |r| == |r'|
    ensures x == y && r == r'
  {
    assert |x + r| == |y + r'|;
    SplitEqual(x, y, r, r');
  }

  lemma DigitsEnd(x: Bytes, y: Bytes, r: Bytes, r': Bytes)
    requires x + r == y + r' && |r| < |r'|
    requires x != [] && forall i :: 0 <= i < |r'| ==> IsDigit(r'[i])
    ensures IsDigit(x[|x| - 1])
  {
    var k := |x| - 1;
    assert k >= |y|;
    assert x[k] == (x + r)[k] == (y + r')[k] == r'[k - |y|];
  }

  /** Distinct bases, epochs or directions never share a context. */
  lemma ContextInjective(base: Bytes, epoch: nat, from: Role, base': Bytes, epoch': nat, from': Role)
    requires Context(base, epoch, from) == Context(base', epoch', from')
    ensures base == base' && epoch == epoch' && from == from'
  {
    SplitFront(EpochContext(base, epoch), EpochContext(base', epoch'), DirectionSuffix(from), DirectionSuffix(from'));
    DirectionInjective(from, from');
    var x, y, d, d' := EpochPrefix(base), EpochPrefix(base'), Digits(epoch), Digits(epoch');
    if |d'| > |d| {
      DigitsEnd(x, y, d, d');
    } else if |d| > |d'| {
      DigitsEnd(y, x, d', d);
    }
    SplitFront(x, y, d, d');
    SplitFront(base, base', Ascii("/epoch-"), Ascii("/epoch-"));
    ValueOfDigits(epoch);
    ValueOfDigits(epoch');
  }

  /** Two contexts in full. */
  lemma FirstContext(base: Bytes)
    ensures Context(base, 0, Alice) == base + Ascii("/epoch-0/alice->bob")
  {
    assert Digits(0) == Ascii("0");
    Spelled(base, "/epoch-", "0", "/alice->bob", "/epoch-0/alice->bob");
  }

  lemma LaterContext(base: Bytes)
    ensures Context(base, 27, Bob) == base + Ascii("/epoch-27/bob->alice")
  {
    assert Digits(27) == Ascii("27");
    Spelled(base, "/epoch-", "27", "/bob->alice", "/epoch-27/bob->alice");
  }

  lemma Spelled(base: Bytes, x: string, y: string, z: string, all: string)
    requires all == x + y + z && forall i :: 0 <= i < |all| ==> all[i] as int < 128
    requires forall i :: 0 <= i < |x| ==> x[i] as int < 128
    requires forall i :: 0 <= i < |y| ==> y[i] as int < 128
    requires forall i :: 0 <= i < |z| ==> z[i] as int < 128
    ensures base + Ascii(x) + Ascii(y) + Ascii(z) == base + Ascii(all)
  {
  }

  // ---------------------------------------------------------------------------
  // Key derivation inputs
  // ---------------------------------------------------------------------------

  datatype KeyPair = KeyPair(send: Bytes, recv: Bytes)

  function SaltBytes(salt: Option<Bytes>): Bytes {
    if salt.None? then [] else salt.value
  }

  /** HKDF over HMAC-BLAKE2b; a missing salt is the empty one. */
  function SubKey(p: Hkdf.Primitives, master: Bytes, context: Bytes, length: int, salt: Option<Bytes>): (key: Bytes)
    requires Hkdf.Sound(p) && Hkdf.ValidLength(length)
    ensures |key| == length
  {
    Hkdf.Expand(p, Hkdf.Blake2b, Hkdf.Extract(p, Hkdf.Blake2b, SaltBytes(salt), master), context, length)
  }

  method DeriveSubKey(p: Hkdf.Primitives, master: Bytes, context: Bytes, length: int, salt: Option<Bytes>)
    returns (r: Result<Bytes>)
    requires Hkdf.Sound(p)
    ensures r.Ok? <==> Hkdf.ValidLength(length)
    ensures r.Ok? ==> r.value == SubKey(p, master, context, length, salt)
  {
    r := Hkdf.HkdfDerive(p, Hkdf.Blake2b, SaltBytes(salt), master, context, length);
  }

  function SessionInfo(sid: Bytes, mark: Byte): Bytes {
    Ascii("nzcore:session:") + sid + [mark]
  }

  function NonceInfo(name: Bytes): Bytes {
    Ascii("nzcore:nonce:") + name
  }

  lemma SessionInfoInjective(sid: Bytes, mark: Byte, sid': Bytes, mark': Byte)
    requires SessionInfo(sid, mark) == SessionInfo(sid', mark')
    ensures sid == sid' && mark == mark'
  {
    SplitFront(Ascii("nzcore:session:") + sid, Ascii("nzcore:session:") + sid', [mark], [mark']);
    var h := Ascii("nzcore:session:");
    assert sid == (h + sid)[|h|..] && sid' == (h + sid')[|h|..];
  }

  method SessionContext(sid: Bytes, mark: Byte) returns (ctx: Bytes)
    ensures ctx == SessionInfo(sid, mark)
  {
    var head := Ascii("nzcore:session:");
    var buffer := new Byte[|head| + |sid| + 1](_ => 0);
    forall i | 0 <= i < |head| {
      buffer[i] := head[i];
    }
    forall i | 0 <= i < |sid| {
      buffer[|head| + i] := sid[i];
    }
    buffer[buffer.Length - 1] := mark;
    ctx := buffer[..];
  }

  function SessionKey(p: Hkdf.Primitives, master: Bytes, sid: Bytes, mark: Byte): (key: Bytes)
    requires Hkdf.Sound(p)
    ensures |key| == 32
  {
    SubKey(p, master, SessionInfo(sid, mark), 32, None)
  }

  method DeriveSessionKeys(p: Hkdf.Primitives, master: Bytes, sid: Bytes) returns (keys: KeyPair)
    requires Hkdf.Sound(p)
    ensures keys == KeyPair(SessionKey(p, master, sid, 1), SessionKey(p, master, sid, 2))
  {
    var ctxSend := SessionContext(sid, 1);
    var ctxRecv := SessionContext(sid, 2);
    var send := DeriveSubKey(p, master, ctxSend, 32, None);
    var recv := DeriveSubKey(p, master, ctxRecv, 32, None);
    keys := KeyPair(send.value, recv.value);
  }

  function NonceBase(p: Hkdf.Primitives, master: Bytes, name: Bytes): (base: Bytes)
    requires Hkdf.Sound(p)
    ensures |base| == 12
  {
    SubKey(p, master, NonceInfo(name), 12, None)
  }

  method DeriveNonceBase(p: Hkdf.Primitives, master: Bytes, name: Bytes) returns (base: Bytes)
    requires Hkdf.Sound(p)
    ensures base == NonceBase(p, master, name)
  {
    var full := DeriveSubKey(p, master, NonceInfo(name), 12, None);
    base := full.value[..12];
  }

  // ---------------------------------------------------------------------------
  // Nonces
  // ---------------------------------------------------------------------------

  const TWO_TO_32: nat := 0x1_0000_0000

  /** The last four bytes of the base replaced by the counter, modulo 2^32, big-endian. */
  function Nonce(base: Bytes, counter: nat): (nonce: Bytes)
    requires |base| == 12
    ensures |nonce| == 12
  {
    var c := counter % TWO_TO_32;
    base[..8] + [c / 0x100_0000, c / 0x1_0000 % 256, c / 0x100 % 256, c % 256]
  }

  method MakeNonce(base: Bytes, counter: nat) returns (r: Result<Bytes>)
    ensures r.Ok? <==> |base| == 12
    ensures r.Ok? ==> r.value == Nonce(base, counter)
  {
    if |base| != 12 {
      return Err("channel: nonceBase must be 12 bytes");
    }
    var nonce := new Byte[12](i requires 0 <= i < 12 => base[i]);
    var c := counter % TWO_TO_32;  // `>>>` and `&` act on the low 32 bits
    nonce[8] := c / 0x100_0000 % 256;
    nonce[9] := c / 0x1_0000 % 256;
    nonce[10] := c / 0x100 % 256;
    nonce[11] := c % 256;
    assert nonce[..8] == base[..8];
    assert nonce[..] == nonce[..8] + [nonce[8], nonce[9], nonce[10], nonce[11]];
    return Ok(nonce[..]);
  }

  lemma CounterBytes(c: nat)
    requires c < TWO_TO_32
    ensures c == 0x100_0000 * (c / 0x100_0000) + 0x1_0000 * (c / 0x1_0000 % 256) + 0x100 * (c / 0x100 % 256) + c % 256
  {
    assert c / 0x1_0000 == c / 0x100 / 256;
    assert c / 0x100_0000 == c / 0x100 / 256 / 256;
  }

  /** Under one base, nonces collide exactly when the counters agree modulo 2^32. */
  lemma NonceCollision(base: Bytes, c: nat, d: nat)
    requires |base| == 12
    ensures Nonce(base, c) == Nonce(base, d) <==> c % TWO_TO_32 == d % TWO_TO_32
  {
    if Nonce(base, c) == Nonce(base, d) {
      var x, y := Nonce(base, c), Nonce(base, d);
      assert x[8] == y[8] && x[9] == y[9] && x[10] == y[10] && x[11] == y[11];
      CounterBytes(c % TWO_TO_32);
      CounterBytes(d % TWO_TO_32);
    }
  }

  function BigEndian32(a: int, b: int, c: int, d: int): int { ((a * 256 + b) * 256 + c) * 256 + d }

  /** A nonce is the first eight bytes of its base and the low 32 bits of the counter, highest byte first. */
  lemma NonceBytes(base: Bytes, counter: nat)
    requires |base| == 12
    ensures var n := Nonce(base, counter);
            && n[..8] == base[..8]
            && BigEndian32(n[8], n[9], n[10], n[11]) == counter % 0x1_0000_0000
  {
    CounterBytes(counter % TWO_TO_32);
  }
}
