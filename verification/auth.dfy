/** The internal/auth package: password hashing, the bearer-credential
    parser, refresh-token rendering and the issue and validation of
    HS256-signed JSON Web Tokens (RFC 7519). */
module Auth {
  import opened Results
  import opened Encoding
  import opened Text
  import opened Uuids
  import opened Http

  /** The failures the package reports. `InvalidToken` is the single error
      of every rejected token; `BadSubject` carries uuid.Parse's error. */
  datatype AuthError =
    | MissingHeader | WrongScheme | EmptyBearer
    | InvalidToken | BadSubject(cause: UuidError)
    | HashFailed | EntropyFailed

  // ---------------------------------------------------------- passwords

  /** bcrypt.DefaultCost. */
  const DefaultCost: nat := 10

  /** A bcrypt hash as an ideal one-way function: the term records its
      cost, its salt and the password it was made from, and the model
      reads the last back only through CheckPasswordHash, which stands
      for recomputing the hash and comparing. */
  datatype PasswordHash = Bcrypt(cost: nat, salt: seq<byte>, preimage: string)

  /** HashPassword with the salt bcrypt draws at random as an input and
      `fails` telling whether bcrypt reported an error. */
  function HashPassword(password: string, salt: seq<byte>, fails: bool): (r: Result<PasswordHash, AuthError>)
    ensures r.Err? <==> fails
    ensures r.Err? ==> r.error == HashFailed
    ensures r.Ok? ==> r.value.cost == DefaultCost && r.value.salt == salt
  {
    if fails then Err(HashFailed) else Ok(Bcrypt(DefaultCost, salt, password))
  }

  /** CheckPasswordHash: true when it would return nil. */
  predicate CheckPasswordHash(password: string, hash: PasswordHash) {
    hash.preimage == password
  }

  /** A password always matches its own hash and never another password's. */
  lemma HashThenCheck(password: string, other: string, salt: seq<byte>)
    ensures HashPassword(password, salt, false).Ok?
    ensures CheckPasswordHash(password, HashPassword(password, salt, false).value)
    ensures other != password ==> !CheckPasswordHash(other, HashPassword(password, salt, false).value)
  {
  }

  // ------------------------------------------------------ bearer tokens

  const AuthorizationHeader: string := "Authorization"

  /** The scheme prefix, matched byte for byte: unlike section 2.1 of
      RFC 7235, which makes scheme names case-insensitive, "bearer x" is
      refused. */
  const BearerPrefix: string := "Bearer "

  /** GetBearerToken: the credential of an "Authorization: Bearer ..."
      header (section 2.1 of RFC 6750), white space trimmed from both ends. */
  function GetBearerToken(headers: Headers): (r: Result<string, AuthError>)
    ensures r.Err? ==> r.error in {MissingHeader, WrongScheme, EmptyBearer}
    ensures r == Err(MissingHeader) <==> HeaderGet(headers, AuthorizationHeader) == ""
    ensures r == Err(WrongScheme) <==>
              HeaderGet(headers, AuthorizationHeader) != "" && !(BearerPrefix <= HeaderGet(headers, AuthorizationHeader))
    ensures r == Err(EmptyBearer) <==>
              BearerPrefix <= HeaderGet(headers, AuthorizationHeader)
              && AllSpace(HeaderGet(headers, AuthorizationHeader)[|BearerPrefix|..])
    ensures r.Ok? ==>
              && BearerPrefix <= HeaderGet(headers, AuthorizationHeader)
              && r.value == TrimSpace(HeaderGet(headers, AuthorizationHeader)[|BearerPrefix|..])
    ensures r.Ok? ==> r.value != [] && !IsSpace(r.value[0]) && !IsSpace(r.value[|r.value| - 1])
  {
    var v := HeaderGet(headers, AuthorizationHeader);
    if v == "" then Err(MissingHeader)
    else if !(BearerPrefix <= v) then Err(WrongScheme)
    else
      var token := TrimSpace(TrimPrefix(v, BearerPrefix));
      if token == "" then Err(EmptyBearer) else Ok(token)
  }

  /** A client that sends "Bearer " followed by a credential without
      surrounding white space gets exactly that credential back. */
  lemma BearerRoundTrip(token: string)
    requires token != [] && !IsSpace(token[0]) && !IsSpace(token[|token| - 1])
    ensures GetBearerToken(SingleHeader(AuthorizationHeader, BearerPrefix + token)) == Ok(token)
  {
    var v := BearerPrefix + token;
    assert HeaderGet(SingleHeader(AuthorizationHeader, v), AuthorizationHeader) == v;
    assert TrimPrefix(v, BearerPrefix) == token;
    TrimSpaceOfTrimmed(token);
  }

  /** The cases of the package's own table test, and a lower-case scheme. */
  lemma BearerValidExample()
    ensures GetBearerToken(SingleHeader(AuthorizationHeader, "Bearer abc123")) == Ok("abc123")
  {
    var token := "abc123";
    assert !IsSpace(token[0]) && !IsSpace(token[|token| - 1]);
    assert BearerPrefix + token == "Bearer abc123";
    BearerRoundTrip(token);
  }

  lemma BearerMissingExample()
    ensures GetBearerToken(map[]) == Err(MissingHeader)
  {
  }

  lemma BearerWrongSchemeExamples()
    ensures GetBearerToken(SingleHeader(AuthorizationHeader, "Token abc123")) == Err(WrongScheme)
    ensures GetBearerToken(SingleHeader(AuthorizationHeader, "bearer abc123")) == Err(WrongScheme)
  {
    assert HeaderGet(SingleHeader(AuthorizationHeader, "Token abc123"), AuthorizationHeader) == "Token abc123";
    assert "Token abc123"[0] != BearerPrefix[0];
    assert HeaderGet(SingleHeader(AuthorizationHeader, "bearer abc123"), AuthorizationHeader) == "bearer abc123";
    assert "bearer abc123"[0] != BearerPrefix[0];
  }

  lemma BearerEmptyExample()
    ensures GetBearerToken(SingleHeader(AuthorizationHeader, "Bearer ")) == Err(EmptyBearer)
  {
    assert HeaderGet(SingleHeader(AuthorizationHeader, "Bearer "), AuthorizationHeader) == BearerPrefix;
    assert BearerPrefix[|BearerPrefix|..] == "";
  }

  // ----------------------------------------------------- refresh tokens

  /** Bytes of randomness in a refresh token (256 bits). */
  const RefreshTokenBytes: nat := 32

  /** MakeRefreshToken, given what crypto/rand delivered: the bytes, or
      None when the read failed. The token is their lowercase hex text. */
  function MakeRefreshToken(entropy: Option<seq<byte>>): (r: Result<string, AuthError>)
    requires entropy.Some? ==> |entropy.value| == RefreshTokenBytes
    ensures r.Err? <==> entropy.None?
    ensures r.Err? ==> r.error == EntropyFailed
    ensures r.Ok? ==> |r.value| == 2 * RefreshTokenBytes
    ensures r.Ok? ==> forall i :: 0 <= i < |r.value| ==> IsLowerHexDigit(r.value[i])
    ensures r.Ok? ==> HexDecode(r.value) == Some(entropy.value)
  {
    match entropy
    case None => Err(EntropyFailed)
    case Some(bytes) => HexRoundTrip(bytes); Ok(HexEncode(bytes))
  }

  /** Distinct random bytes give distinct refresh tokens. */
  lemma RefreshTokensDistinct(a: seq<byte>, b: seq<byte>)
    requires |a| == RefreshTokenBytes && |b| == RefreshTokenBytes && a != b
    ensures MakeRefreshToken(Some(a)).value != MakeRefreshToken(Some(b)).value
  {
  }

  // ------------------------------------------------------ access tokens

  const Issuer: string := "chirpy"

  /** The JWS algorithm name of HMAC with SHA-256 (RFC 7518 section 3.2). */
  const HS256: string := "HS256"

  /** The registered claims of RFC 7519 section 4.1 the server reads or
      writes; times are whole seconds since the epoch. */
  datatype Claims = Claims(
    issuer: string,
    subject: string,
    issuedAt: Option<int>,
    expiresAt: Option<int>,
    notBefore: Option<int>)

  /** A decoded token: the algorithm its header names, its claims and its
      signature bytes. */
  datatype Jwt = Jwt(alg: string, claims: Claims, signature: seq<byte>)

  /** The parts of golang-jwt the model does not spell out: the MAC keyed
      by the secret over header and claims, and the compact serialization
      with its parser. */
  datatype Jose = Jose(
    mac: (string, string, Claims) -> seq<byte>,
    serialize: Jwt -> string,
    parse: string -> Option<Jwt>)

  /** Parsing a serialized token gives the token back. */
  ghost predicate FaithfulCodec(jose: Jose) {
    forall t :: jose.parse(jose.serialize(t)) == Some(t)
  }

  /** The compact serialization (RFC 7515 section 7.1) is base64url text
      and dots: never empty, never white space at either end, so a token
      survives being sent as a bearer credential. */
  ghost predicate CompactTokens(jose: Jose) {
    forall t :: var s := jose.serialize(t); s != [] && !IsSpace(s[0]) && !IsSpace(s[|s| - 1])
  }

  /** Two different secrets never give the same tag for the same message;
      the assumption under which a token signed with one secret is refused
      under another. It idealises HMAC-SHA256, whose key padding makes a
      key and the same key followed by zero bytes give equal tags. */
  ghost predicate MacSeparatesSecrets(jose: Jose) {
    forall k1, k2, alg, c :: k1 != k2 ==> jose.mac(k1, alg, c) != jose.mac(k2, alg, c)
  }

  /** The claims MakeJWT signs. */
  function IssuedClaims(userId: Uuid, expiresIn: int, now: int): (c: Claims)
    ensures Parse(c.subject) == Ok(userId)
  {
    ParseFormat(userId);
    Claims(Issuer, Format(userId), Some(now), Some(now + expiresIn), None)
  }

  /** MakeJWT at time `now` (seconds): an HS256 token naming the user as
      subject, issued now and expiring `expiresIn` seconds later. */
  function MakeJWT(userId: Uuid, secret: string, expiresIn: int, now: int, jose: Jose): (token: string)
    ensures FaithfulCodec(jose) ==>
              exists t :: jose.parse(token) == Some(t)
                && t.alg == HS256
                && t.signature == jose.mac(secret, HS256, t.claims)
                && t.claims.issuer == Issuer
                && t.claims.subject == Format(userId)
                && t.claims.issuedAt == Some(now)
                && t.claims.expiresAt == Some(now + expiresIn)
  {
    var c := IssuedClaims(userId, expiresIn, now);
    var t := Jwt(HS256, c, jose.mac(secret, HS256, c));
    jose.serialize(t)
  }

  /** golang-jwt's time checks with no leeway: the token has not expired
      (now strictly before `exp`) and is not used before `nbf`. Both
      claims are optional. */
  predicate InForce(c: Claims, now: int) {
    && (c.expiresAt.None? || now < c.expiresAt.value)
    && (c.notBefore.None? || c.notBefore.value <= now)
  }

  /** The checks ParseWithClaims makes before the subject is read. */
  predicate Accepted(t: Jwt, secret: string, now: int, jose: Jose) {
    && t.alg == HS256
    && t.signature == jose.mac(secret, HS256, t.claims)
    && InForce(t.claims, now)
  }

  /** ValidateJWT at time `now`: a token that cannot be parsed, names
      another algorithm, is badly signed, expired or not yet valid is
      refused with the single error InvalidToken; otherwise its subject is
      parsed as a user id, whose parse error is passed on. */
  function ValidateJWT(token: string, secret: string, now: int, jose: Jose): (r: Result<Uuid, AuthError>)
    ensures r.Err? ==> r.error == InvalidToken || r.error.BadSubject?
    ensures r == Err(InvalidToken) <==>
              jose.parse(token).None? || !Accepted(jose.parse(token).value, secret, now, jose)
    ensures r.Ok? ==>
              && jose.parse(token).Some? && Accepted(jose.parse(token).value, secret, now, jose)
              && Parse(jose.parse(token).value.claims.subject) == Ok(r.value)
    ensures r.Err? && r.error.BadSubject? ==>
              && jose.parse(token).Some? && Accepted(jose.parse(token).value, secret, now, jose)
              && Parse(jose.parse(token).value.claims.subject) == Err(r.error.cause)
  {
    match jose.parse(token)
    case None => Err(InvalidToken)
    case Some(t) =>
      if !Accepted(t, secret, now, jose) then Err(InvalidToken)
      else
        match Parse(t.claims.subject)
        case Ok(id) => Ok(id)
        case Err(e) => Err(BadSubject(e))
  }

  /** A token issued for a user is accepted, and names that user, at every
      moment from its issue until just before it expires. */
  lemma IssueThenValidate(jose: Jose, userId: Uuid, secret: string, expiresIn: int, now: int, later: int)
    requires FaithfulCodec(jose)
    requires now <= later < now + expiresIn
    ensures ValidateJWT(MakeJWT(userId, secret, expiresIn, now, jose), secret, later, jose) == Ok(userId)
  {
    var c := IssuedClaims(userId, expiresIn, now);
    assert jose.parse(jose.serialize(Jwt(HS256, c, jose.mac(secret, HS256, c)))) == Some(Jwt(HS256, c, jose.mac(secret, HS256, c)));
  }

  /** From its expiry on, a token is refused; one issued with a TTL of zero
      or less is refused from the moment it is issued. */
  lemma ExpiredTokenRejected(jose: Jose, userId: Uuid, secret: string, expiresIn: int, now: int, later: int)
    requires FaithfulCodec(jose)
    requires later >= now + expiresIn
    ensures ValidateJWT(MakeJWT(userId, secret, expiresIn, now, jose), secret, later, jose) == Err(InvalidToken)
  {
    var c := IssuedClaims(userId, expiresIn, now);
    assert jose.parse(jose.serialize(Jwt(HS256, c, jose.mac(secret, HS256, c)))) == Some(Jwt(HS256, c, jose.mac(secret, HS256, c)));
  }

  /** A token signed with one secret is refused under any other. */
  lemma WrongSecretRejected(jose: Jose, userId: Uuid, secret: string, other: string, expiresIn: int, now: int, later: int)
    requires FaithfulCodec(jose) && MacSeparatesSecrets(jose)
    requires other != secret
    ensures ValidateJWT(MakeJWT(userId, secret, expiresIn, now, jose), other, later, jose) == Err(InvalidToken)
  {
    var c := IssuedClaims(userId, expiresIn, now);
    assert jose.parse(jose.serialize(Jwt(HS256, c, jose.mac(secret, HS256, c)))) == Some(Jwt(HS256, c, jose.mac(secret, HS256, c)));
    assert jose.mac(secret, HS256, c) != jose.mac(other, HS256, c);
  }

  /** A token whose header names any algorithm but HS256 ("none", "RS256",
      ...) is refused whatever its signature and claims. */
  lemma ForeignAlgorithmRejected(jose: Jose, token: string, secret: string, now: int)
    requires jose.parse(token).Some? && jose.parse(token).value.alg != HS256
    ensures ValidateJWT(token, secret, now, jose) == Err(InvalidToken)
  {
  }

  /** A correctly signed, current token whose subject is not a user id is
      answered with uuid.Parse's error, not with InvalidToken. */
  lemma MalformedSubjectReported(jose: Jose, token: string, secret: string, now: int)
    requires jose.parse(token).Some? && Accepted(jose.parse(token).value, secret, now, jose)
    requires Parse(jose.parse(token).value.claims.subject).Err?
    ensures ValidateJWT(token, secret, now, jose) == Err(BadSubject(Parse(jose.parse(token).value.claims.subject).error))
  {
  }
}
