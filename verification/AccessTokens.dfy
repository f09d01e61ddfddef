/**
 core/crypto/auth.js, access tokens: JWS compact form (section 7.1 of RFC 7515) with HMAC-SHA256.
 */
module AccessTokens {
  import opened Base64
  import opened Results
  import opened Strings

  datatype Claims = Claims(iss: string, aud: string, iat: int, exp: int, jti: string, kind: string)

  /**
   The functions taken from elsewhere: HMAC-SHA256 of a text, and JSON with UTF-8 in both directions.
   `header` is the encoded text of the fixed header.
   */
  datatype Primitives = Primitives(
    hmac: (Bytes, string) -> Bytes, encode: Claims -> Bytes, parse: Bytes -> Result<Claims>, header: Bytes)

  ghost predicate Sound(p: Primitives) {
    forall c :: p.parse(p.encode(c)) == Ok(c)
  }

  const ISSUER: string := "newzonecore"
  const AUDIENCE: string := "nzcore-api"
  const ACCESS: string := "access"

  // ---------------------------------------------------------------------------
  // The compact form
  // ---------------------------------------------------------------------------

  /** `text.split('.')` */
  function Split(text: string): (parts: seq<string>)
    ensures |parts| > 0
  {
    if text == "" then [""]
    else
      var rest := Split(text[1..]);
      if text[0] == '.' then [""] + rest else [[text[0]] + rest[0]] + rest[1..]
  }

  lemma {:induction false} SplitAtDot(x: string, rest: string)
    requires '.' !in x
    ensures Split(x + "." + rest) == [x] + Split(rest)
  {
    var text := x + "." + rest;
    if x == "" {
      assert text[1..] == rest;
    } else {
      SplitAtDot(x[1..], rest);
      assert text[0] == x[0] && x[0] in x;
      assert text[1..] == x[1..] + "." + rest;
      assert x == [x[0]] + x[1..];
    }
  }

  lemma {:induction false} SplitNoDot(x: string)
    requires '.' !in x
    ensures Split(x) == [x]
  {
    if x != "" {
      SplitNoDot(x[1..]);
      assert x[0] in x && x == [x[0]] + x[1..];
    }
  }

  /** Three parts without dots come apart as those three parts. */
  lemma SplitThree(x: string, y: string, z: string)
    requires '.' !in x && '.' !in y && '.' !in z
    ensures Split(x + "." + y + "." + z) == [x, y, z]
  {
    assert x + "." + y + "." + z == x + "." + (y + "." + z);
    SplitAtDot(x, y + "." + z);
    SplitAtDot(y, z);
    SplitNoDot(z);
  }

  function Joined(parts: seq<string>): string
    requires parts != []
  {
    if |parts| == 1 then parts[0] else parts[0] + "." + Joined(parts[1..])
  }

  /** The parts hold no dots, and with dots between them they are the text again. */
  lemma {:induction false} SplitJoins(text: string)
    ensures Joined(Split(text)) == text && forall part <- Split(text) :: '.' !in part
  {
    if text != "" {
      SplitJoins(text[1..]);
      var rest := Split(text[1..]);
      assert text == [text[0]] + text[1..];
      if text[0] == '.' {
        assert Split(text)[1..] == rest;
      } else {
        assert rest == [rest[0]] + rest[1..];
        assert |rest| > 1 ==> Split(text)[1..] == rest[1..];
      }
    }
  }

  function SignJwt(p: Primitives, secret: Bytes, c: Claims): string {
    var signed := UrlEncode(p.header) + "." + UrlEncode(p.encode(c));
    signed + "." + UrlEncode(p.hmac(secret, signed))
  }

  function VerifyJwt(p: Primitives, secret: Bytes, token: string, now: int): Result<Claims> {
    var parts := Split(token);
    if |parts| != 3 then Err("Invalid JWT format")
    else if p.hmac(secret, parts[0] + "." + parts[1]) != UrlDecode(parts[2]) then Err("Invalid JWT signature")
    else
      var payload := p.parse(UrlDecode(parts[1]));
      if payload.Ok? && payload.value.exp != 0 && now > payload.value.exp * 1000 then Err("JWT expired")
      else payload
  }

  /** A signed token carries its claims, whoever holds the secret reads them until they expire. */
  lemma SignedTokenVerifies(p: Primitives, secret: Bytes, c: Claims, now: int)
    requires Sound(p)
    ensures VerifyJwt(p, secret, SignJwt(p, secret, c), now)
         == if c.exp != 0 && now > c.exp * 1000 then Err("JWT expired") else Ok(c)
  {
    var header, payload := UrlEncode(p.header), UrlEncode(p.encode(c));
    var signature := p.hmac(secret, header + "." + payload);
    UrlAlphabet(p.header);
    UrlAlphabet(p.encode(c));
    UrlAlphabet(signature);
    SplitThree(header, payload, UrlEncode(signature));
    UrlRoundTrip(p.encode(c));
    UrlRoundTrip(signature);
  }

  /** Under a secret that signs the token's text differently the token is refused. */
  lemma OtherSecretRefuses(p: Primitives, secret: Bytes, other: Bytes, c: Claims, now: int)
    requires p.hmac(secret, UrlEncode(p.header) + "." + UrlEncode(p.encode(c)))
          != p.hmac(other, UrlEncode(p.header) + "." + UrlEncode(p.encode(c)))
    ensures VerifyJwt(p, other, SignJwt(p, secret, c), now) == Err("Invalid JWT signature")
  {
    var header, payload := UrlEncode(p.header), UrlEncode(p.encode(c));
    var signature := p.hmac(secret, header + "." + payload);
    UrlAlphabet(p.header);
    UrlAlphabet(p.encode(c));
    UrlAlphabet(signature);
    SplitThree(header, payload, UrlEncode(signature));
    UrlRoundTrip(signature);
  }

  /** What the verifier asks of a token: a signature over its first two parts, and a payload that has not expired. */
  ghost predicate Acceptable(p: Primitives, secret: Bytes, header: string, payload: string, signature: string,
                             c: Claims, now: int)
  {
    && '.' !in header && '.' !in payload && '.' !in signature
    && p.hmac(secret, header + "." + payload) == UrlDecode(signature)
    && p.parse(UrlDecode(payload)) == Ok(c)
    && (c.exp == 0 || now <= c.exp * 1000)
  }

  lemma Unjoined(parts: seq<string>)
    requires |parts| == 3
    ensures Joined(parts) == parts[0] + "." + parts[1] + "." + parts[2]
  {
    assert Joined(parts[1..]) == parts[1] + "." + parts[2];
  }

  /** A token is accepted if and only if it is three such parts; its header may be any text at all. */
  lemma AcceptedIff(p: Primitives, secret: Bytes, token: string, c: Claims, now: int)
    ensures VerifyJwt(p, secret, token, now) == Ok(c) <==>
            exists header, payload, signature :: token == header + "." + payload + "." + signature
                                                 && Acceptable(p, secret, header, payload, signature, c, now)
  {
    if VerifyJwt(p, secret, token, now) == Ok(c) {
      var parts := Split(token);
      SplitJoins(token);
      Unjoined(parts);
      assert Acceptable(p, secret, parts[0], parts[1], parts[2], c, now);
    }
    forall header, payload, signature | token == header + "." + payload + "." + signature
                                        && Acceptable(p, secret, header, payload, signature, c, now)
      ensures VerifyJwt(p, secret, token, now) == Ok(c)
    {
      SplitThree(header, payload, signature);
    }
  }

  // ---------------------------------------------------------------------------
  // Access tokens
  // ---------------------------------------------------------------------------

  /** The last second, in unix time, of a token made at `now` (milliseconds). */
  function ExpirySecond(now: int, expiry: int): int {
    (now + expiry) / 1000
  }

  function GenerateAccessToken(p: Primitives, secret: Bytes, expiry: int, now: int, jti: string): string {
    SignJwt(p, secret, Claims(ISSUER, AUDIENCE, now / 1000, ExpirySecond(now, expiry), jti, ACCESS))
  }

  datatype Validation = Valid(tokenId: string, expiresAt: int) | NotValid(error: string)

  function ValidateToken(p: Primitives, secret: Bytes, token: string, now: int): Validation {
    var payload := VerifyJwt(p, secret, token, now);
    if payload.Err? then NotValid(payload.error)
    else if payload.value.kind != ACCESS then NotValid("Invalid token type")
    else Valid(payload.value.jti, payload.value.exp * 1000)
  }

  /**
   A token is accepted exactly until 1000 * floor((now + expiry) / 1000), except that one whose expiry
   second is 0 never expires; acceptance returns its id and that time.
   */
  lemma TokenLifetime(p: Primitives, secret: Bytes, expiry: int, now: int, jti: string, later: int)
    requires Sound(p)
    ensures var until := 1000 * ((now + expiry) / 1000);
            ValidateToken(p, secret, GenerateAccessToken(p, secret, expiry, now, jti), later)
            == if until == 0 || later <= until then Valid(jti, until) else NotValid("JWT expired")
  {
    SignedTokenVerifies(p, secret, Claims(ISSUER, AUDIENCE, now / 1000, ExpirySecond(now, expiry), jti, ACCESS), later);
  }

  /** What an accepted token says. */
  lemma TokenClaims(p: Primitives, secret: Bytes, expiry: int, now: int, jti: string, later: int)
    requires Sound(p)
    ensures var until := (now + expiry) / 1000;
            var r := VerifyJwt(p, secret, GenerateAccessToken(p, secret, expiry, now, jti), later);
            r.Ok? ==> r.value == Claims("newzonecore", "nzcore-api", now / 1000, until, jti, "access")
  {
    SignedTokenVerifies(p, secret, Claims(ISSUER, AUDIENCE, now / 1000, ExpirySecond(now, expiry), jti, ACCESS), later);
  }

  /** So it lives for more than expiry - 1000 and at most expiry milliseconds, unless it lives for ever. */
  lemma LifetimeBounds(p: Primitives, secret: Bytes, expiry: int, now: int, jti: string, age: int)
    requires Sound(p)
    ensures var v := ValidateToken(p, secret, GenerateAccessToken(p, secret, expiry, now, jti), now + age);
            && (age <= expiry - 1000 ==> v.Valid?)
            && (age > expiry ==> (v.NotValid? <==> !(0 <= now + expiry < 1000)))
  {
    TokenLifetime(p, secret, expiry, now, jti, now + age);
    FlooredSecond(now + expiry);
  }

  lemma FlooredSecond(t: int)
    ensures t - 1000 < 1000 * (t / 1000) <= t
    ensures t / 1000 == 0 <==> 0 <= t < 1000
  {
  }
}
