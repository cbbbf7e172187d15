/** Bearer-token handling: the request guard that turns an `authorization`
    header into an authenticated subject or a forward, the normalisation of
    the header value before it reaches the JWT decoder, and the construction
    of the claims a new token carries.

    Signing and verification (JSON Web Tokens, RFC 7519, signed with
    HMAC-SHA-512 as in section 3.2 of RFC 7518) belong to a library; here they
    are the parameters `encode` and `decode`, whose results are all the model
    looks at. The decoder also stands for the library's expiry check against
    the wall clock, and the signing secret is an explicit parameter. */
module Auth {
  import opened Results
  import opened Text

  /** Rust's `usize` on a 64-bit target. */
  type usize = x: int | 0 <= x < 0x1_0000_0000_0000_0000

  /** Lifetime of an issued token, in seconds. */
  const TokenTtlSeconds: int := 60

  /** The authentication scheme word removed from the header value. */
  const Scheme: string := "Bearer"

  /** The signing algorithms the JWT library knows. */
  datatype Algorithm =
    | HS256 | HS384 | HS512
    | ES256 | ES384
    | RS256 | RS384 | RS512
    | PS256 | PS384 | PS512
    | EdDSA

  /** The JOSE header of an issued token. */
  datatype Header = Header(typ: Option<string>, alg: Algorithm)

  /** What the decoder is asked to accept: here, only the listed algorithms. */
  datatype Validation = Validation(algorithms: seq<Algorithm>)

  datatype Claims = Claims(subjectId: string, exp: usize)

  /** The request guard's product: the verified claims. */
  datatype Jwt = Jwt(claims: Claims)

  /** Why the library refused a token; `OtherKind` covers every kind besides
      the two the guard names (a bad signature, a wrong algorithm, bad
      base64, ...). */
  datatype ErrorKind = ExpiredSignature | InvalidToken | OtherKind(detail: string)

  datatype Status = Status(code: int)

  const BadRequest: Status := Status(400)

  /** The web framework's request-guard outcome. */
  datatype Outcome = Success(jwt: Jwt) | Error(status: Status) | Forward(status: Status)

  /** The library's decoder: token text, secret and validation to claims. */
  type Decoder = (string, string, Validation) -> Result<Claims, ErrorKind>

  /** The library's encoder: header, claims and secret to token text. */
  type Encoder = (Header, Claims, string) -> Result<string, ErrorKind>

  /** `Header::new(alg)`. */
  function NewHeader(alg: Algorithm): Header {
    Header(Some("JWT"), alg)
  }

  /** `Validation::new(alg)`: accept tokens signed with `alg` only. */
  function NewValidation(alg: Algorithm): Validation {
    Validation([alg])
  }

  /** The header value as handed to the decoder: every leading copy of the
      scheme word removed, then surrounding whitespace trimmed. */
  function NormaliseToken(raw: string): (t: string)
    ensures Trimmed(t)
  {
    Trim(TrimStartMatches(raw, Scheme))
  }

  /** `decode_jwt`: normalise the header value and decode it as HS512. */
  function DecodeJwt(raw: string, secret: string, decode: Decoder): (r: Result<Claims, ErrorKind>)
    ensures r == decode(NormaliseToken(raw), secret, Validation([HS512]))
  {
    decode(NormaliseToken(raw), secret, NewValidation(HS512))
  }

  /** `from_request`: the guard succeeds exactly when a header is present and
      decodes, and then carries the decoded claims; every other case is the
      same forward with status 400. */
  function FromRequest(authorization: Option<string>, secret: string, decode: Decoder): (o: Outcome)
    ensures authorization.None? ==> o == Forward(BadRequest)
    ensures o.Success? <==> authorization.Some? && DecodeJwt(authorization.value, secret, decode).Ok?
    ensures o.Success? ==> o.jwt.claims == DecodeJwt(authorization.value, secret, decode).value
    ensures !o.Success? ==> o == Forward(BadRequest)
  {
    match authorization
    case None => Forward(BadRequest)
    case Some(key) =>
      match DecodeJwt(key, secret, decode)
      case Ok(claims) => Success(Jwt(claims))
      case Err(kind) =>
        match kind
        case ExpiredSignature => Forward(BadRequest)
        case InvalidToken => Forward(BadRequest)
        case OtherKind(_) => Forward(BadRequest)
  }

  /** `expiration as usize`: the signed 64-bit timestamp reinterpreted as
      unsigned, so a negative value wraps around. */
  function AsUsize(v: int): usize {
    v % 0x1_0000_0000_0000_0000
  }

  /** The claims `create_jwt` signs at time `now` (Unix seconds). */
  function IssueClaims(id: string, now: int): (c: Claims)
    ensures c.subjectId == id
    ensures 0 <= now + TokenTtlSeconds < 0x1_0000_0000_0000_0000 ==> c.exp == now + TokenTtlSeconds
    ensures -0x1_0000_0000_0000_0000 <= now + TokenTtlSeconds < 0 ==>
              c.exp == now + TokenTtlSeconds + 0x1_0000_0000_0000_0000
  {
    Claims(id, AsUsize(now + TokenTtlSeconds))
  }

  /** `create_jwt`: sign the claims for `id` under an HS512 header. */
  function CreateJwt(id: string, now: int, secret: string, encode: Encoder): (r: Result<string, ErrorKind>)
    ensures r == encode(Header(Some("JWT"), HS512), IssueClaims(id, now), secret)
  {
    encode(NewHeader(HS512), IssueClaims(id, now), secret)
  }

  /** Issuing and validating name the same single algorithm. The two
      halves are the contracts of `CreateJwt` and `DecodeJwt`; this lemma is
      the one place that ties them through the shared header `h`: whatever
      the library, `create_jwt` hands it a header declaring HS512 and
      `decode_jwt` asks it to accept exactly `h.alg` and no other. */
  lemma IssueAndValidateAgreeOnAlgorithm(id: string, now: int, raw: string, secret: string,
                                         encode: Encoder, decode: Decoder)
    ensures var h := Header(Some("JWT"), HS512);
            && CreateJwt(id, now, secret, encode) == encode(h, IssueClaims(id, now), secret)
            && DecodeJwt(raw, secret, decode) == decode(NormaliseToken(raw), secret, Validation([h.alg]))
  {
  }

  /** The scheme word on its own is one copy of itself. */
  lemma SchemeIsRepetition()
    ensures IsRepetitionOf(Scheme, Scheme)
  {
    assert Scheme[|Scheme|..] == [];
  }

  /** A header value `Bearer <token>` reaches the decoder as exactly the
      token when the token has no surrounding whitespace (whatever it starts
      with: only the copy of the scheme word before the space is removed). */
  lemma SchemeIsStripped(t: string)
    requires Trimmed(t)
    ensures NormaliseToken(Scheme + " " + t) == t
  {
    var rest := " " + t;
    SchemeIsRepetition();
    assert !StartsWith(rest, Scheme) by {
      assert rest[0] == ' ' && Scheme[0] == 'B';
    }
    assert Scheme + " " + t == Scheme + rest;
    TrimStartMatchesOfRun(Scheme, rest, Scheme);
    assert AllWhitespace(" ");
    TrimOfPadded(" ", t, []);
    assert " " + t + [] == " " + t;
  }

  /** A bare token (no scheme word, no surrounding whitespace) reaches the
      decoder unchanged. */
  lemma BareTokenUnchanged(t: string)
    requires Trimmed(t) && !StartsWith(t, Scheme)
    ensures NormaliseToken(t) == t
  {
    assert [] + t == t;
    TrimStartMatchesOfRun([], t, Scheme);
    assert TrimStartMatches(t, Scheme) == t;
    assert [] + t + [] == t;
    TrimOfPadded([], t, []);
    assert Trim(t) == t;
  }

  /** The scheme word is removed in one pass before trimming, so in
      `Bearer Bearer <token>` the second word survives, and normalising the
      result again changes it: the normalisation is not idempotent. */
  lemma NormalisationNotIdempotent(t: string)
    requires t != [] && Trimmed(t)
    ensures NormaliseToken(Scheme + " " + (Scheme + " " + t)) == Scheme + " " + t
    ensures NormaliseToken(NormaliseToken(Scheme + " " + (Scheme + " " + t))) == t
    ensures t != Scheme + " " + t
  {
    var once := Scheme + " " + t;
    assert once[0] == 'B' && once[|once| - 1] == t[|t| - 1];
    SchemeIsStripped(once);
    SchemeIsStripped(t);
  }

  /** Back-to-back copies of the scheme word all go, with no space needed
      between them or after them. */
  lemma RepeatedSchemeStripped(t: string)
    requires Trimmed(t) && !StartsWith(t, Scheme)
    ensures NormaliseToken(Scheme + Scheme + t) == t
  {
    assert IsRepetitionOf(Scheme + Scheme, Scheme) by {
      assert (Scheme + Scheme)[..|Scheme|] == Scheme;
      assert (Scheme + Scheme)[|Scheme|..] == Scheme;
      SchemeIsRepetition();
    }
    TrimStartMatchesOfRun(Scheme + Scheme, t, Scheme);
    assert [] + t + [] == t;
    TrimOfPadded([], t, []);
  }

  /** The scheme word is matched case-sensitively: a lower-case `bearer`
      prefix is passed on to the decoder. */
  lemma SchemeIsCaseSensitive(t: string)
    requires Trimmed(t) && t != []
    ensures NormaliseToken("bearer " + t) == "bearer " + t
  {
    var raw := "bearer " + t;
    assert raw[0] == 'b' && raw[|raw| - 1] == t[|t| - 1];
    assert !StartsWith(raw, Scheme) by {
      assert Scheme[0] == 'B';
    }
    BareTokenUnchanged(raw);
  }

  /** JWS compact serialisation (section 7.1 of RFC 7515): base64url text and
      the dots between segments. The first segment encodes a JSON object, so
      the text never begins with the scheme word. */
  predicate IsCompactToken(t: string) {
    && (forall i :: 0 <= i < |t| ==> IsBase64UrlOrDot(t[i]))
    && !StartsWith(t, Scheme)
  }

  predicate IsBase64UrlOrDot(c: char) {
    'A' <= c <= 'Z' || 'a' <= c <= 'z' || '0' <= c <= '9' || c == '-' || c == '_' || c == '.'
  }

  /** A compact token has no surrounding whitespace. */
  lemma CompactTokenIsTrimmed(token: string)
    requires IsCompactToken(token)
    ensures Trimmed(token)
  {
    if token != [] {
      assert IsBase64UrlOrDot(token[0]) && IsBase64UrlOrDot(token[|token| - 1]);
    }
  }

  /** The library's promise for a decoder that reads the wall clock as
      `clock`: claims that have not expired by then (`clock <= exp`), once
      signed under the issuing header, decode back under the HS512
      validation with the same secret. Expired claims are not constrained,
      so a decoder that refuses them (with or without leeway) qualifies. */
  ghost predicate LibraryRoundTrips(encode: Encoder, decode: Decoder, secret: string, clock: int) {
    forall c: Claims ::
      clock <= c.exp && encode(NewHeader(HS512), c, secret).Ok? ==>
        decode(encode(NewHeader(HS512), c, secret).value, secret, NewValidation(HS512)) == Ok(c)
  }

  /** A token issued at `now` and presented by `clock`, at most the token's
      lifetime later, as `Bearer <token>` or bare, passes the guard, which
      then carries the subject and expiry it was issued with. */
  lemma IssuedTokenPassesGuard(id: string, now: int, clock: int, secret: string, encode: Encoder, decode: Decoder)
    requires LibraryRoundTrips(encode, decode, secret, clock)
    requires 0 <= now + TokenTtlSeconds < 0x1_0000_0000_0000_0000 && clock <= now + TokenTtlSeconds
    requires CreateJwt(id, now, secret, encode).Ok?
    requires IsCompactToken(CreateJwt(id, now, secret, encode).value)
    ensures FromRequest(Some(Scheme + " " + CreateJwt(id, now, secret, encode).value), secret, decode)
              == Success(Jwt(IssueClaims(id, now)))
    ensures FromRequest(Some(CreateJwt(id, now, secret, encode).value), secret, decode)
              == Success(Jwt(IssueClaims(id, now)))
  {
    IssuedTokenDecodes(id, now, clock, secret, encode, decode);
    CompactTokenPassesGuard(CreateJwt(id, now, secret, encode).value, secret, decode);
  }

  /** A compact token the decoder accepts passes the guard, bare or after
      `Bearer `, with the decoded claims. */
  lemma CompactTokenPassesGuard(token: string, secret: string, decode: Decoder)
    requires IsCompactToken(token)
    requires decode(token, secret, NewValidation(HS512)).Ok?
    ensures FromRequest(Some(Scheme + " " + token), secret, decode)
              == Success(Jwt(decode(token, secret, NewValidation(HS512)).value))
    ensures FromRequest(Some(token), secret, decode)
              == Success(Jwt(decode(token, secret, NewValidation(HS512)).value))
  {
    CompactTokenIsTrimmed(token);
    SchemeIsStripped(token);
    BareTokenUnchanged(token);
    assert DecodeJwt(Scheme + " " + token, secret, decode) == decode(token, secret, NewValidation(HS512));
    assert DecodeJwt(token, secret, decode) == decode(token, secret, NewValidation(HS512));
  }

  /** Before it expires, the library decodes an issued token back to the
      claims it was issued with. */
  lemma IssuedTokenDecodes(id: string, now: int, clock: int, secret: string, encode: Encoder, decode: Decoder)
    requires LibraryRoundTrips(encode, decode, secret, clock)
    requires 0 <= now + TokenTtlSeconds < 0x1_0000_0000_0000_0000 && clock <= now + TokenTtlSeconds
    requires CreateJwt(id, now, secret, encode).Ok?
    ensures decode(CreateJwt(id, now, secret, encode).value, secret, NewValidation(HS512)) == Ok(IssueClaims(id, now))
  {
    var c := IssueClaims(id, now);
    assert encode(NewHeader(HS512), c, secret).Ok?;
  }

  /** A stand-in library that enforces expiry: a token is the expiry in
      decimal, a dot and the subject; decoding refuses any expiry before the
      clock. It shows that `LibraryRoundTrips` admits decoders that reject
      expired tokens. */
  function ExpiringEncoder(): Encoder {
    (h: Header, c: Claims, secret: string) => Ok(DecimalString(c.exp) + "." + c.subjectId)
  }

  function ExpiringDecoder(clock: int): Decoder {
    (t: string, secret: string, v: Validation) =>
      var k := DigitPrefixLength(t);
      var exp := ParseDecimal(t[..k]);
      if k == 0 || k == |t| || t[k] != '.' || exp >= 0x1_0000_0000_0000_0000 then Err(InvalidToken)
      else if exp < clock then Err(ExpiredSignature)
      else Ok(Claims(t[k + 1..], exp))
  }

  /** The stand-in library meets the round-trip promise at every clock,
      yet refuses the expired claims `Claims("", 0)` once the clock is past
      zero. */
  lemma ExpiringLibraryRoundTrips(secret: string, clock: int)
    ensures LibraryRoundTrips(ExpiringEncoder(), ExpiringDecoder(clock), secret, clock)
    ensures 0 < clock ==>
              ExpiringDecoder(clock)(ExpiringEncoder()(NewHeader(HS512), Claims("", 0), secret).value,
                                     secret, NewValidation(HS512)) == Err(ExpiredSignature)
  {
    forall c: Claims | clock <= c.exp
      ensures ExpiringDecoder(clock)(ExpiringEncoder()(NewHeader(HS512), c, secret).value,
                                     secret, NewValidation(HS512)) == Ok(c)
    {
      ExpiringTokenDecodes(c, secret, clock);
    }
    ExpiringTokenDecodes(Claims("", 0), secret, clock);
  }

  /** Decoding a stand-in token recovers its expiry and subject, and the
      clock alone decides between them and `ExpiredSignature`. */
  lemma ExpiringTokenDecodes(c: Claims, secret: string, clock: int)
    ensures ExpiringDecoder(clock)(DecimalString(c.exp) + "." + c.subjectId, secret, NewValidation(HS512))
              == if c.exp < clock then Err(ExpiredSignature) else Ok(c)
  {
    var d := DecimalString(c.exp);
    var t := d + "." + c.subjectId;
    assert t == d + ("." + c.subjectId);
    DigitPrefixLengthOf(d, "." + c.subjectId);
    assert t[..|d|] == d;
    assert t[|d|] == '.';
    assert t[|d| + 1..] == c.subjectId;
  }
}
