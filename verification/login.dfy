/** handle_login.go: password login, which issues an access token and a
    persisted refresh token. */
module Login {
  import opened Results
  import opened Encoding
  import opened Text
  import opened Uuids
  import opened Http
  import opened Auth
  import opened Store
  import opened Api
  import Users

  /** The decoded body; `expiresInSeconds` is the optional JSON integer,
      which the decoder refuses when it does not fit Go's 64-bit int. */
  datatype LoginRequest = LoginRequest(email: string, password: string, expiresInSeconds: Option<int64>)

  datatype LoginResponse = LoginResponse(
    id: Uuid, createdAt: int, updatedAt: int, email: string,
    token: string, refreshToken: string, isChirpyRed: bool)

  /** The cap on an access token's lifetime: one hour. */
  const MaxExpirySeconds: int := 3600
  const NanosPerSecond: int := 1_000_000_000
  /** A refresh token lives sixty days, whatever the access token's lifetime. */
  const RefreshLifetimeSeconds: int := 60 * 24 * 3600
  /** The one message for an unknown email and for a wrong password. */
  const BadCredentials: string := "Incorrect email or password"

  // ------------------------------------------------------- access token TTL

  /** The lifetime as the handler computes it, a time.Duration in
      nanoseconds: the requested seconds times 10^9 in int64 arithmetic,
      kept when below one hour. */
  function AccessTtlAsWritten(requested: Option<int64>): (ns: int64)
    ensures ns <= MaxExpirySeconds * NanosPerSecond
    ensures requested.None? ==> ns == MaxExpirySeconds * NanosPerSecond
  {
    var cap := MaxExpirySeconds * NanosPerSecond;
    match requested
    case None => cap
    case Some(n) =>
      var product := Wrap64(n as int * NanosPerSecond);
      if product < cap then product else cap
  }

  /** The lifetime in seconds as intended: the requested value, capped at
      one hour; one hour when nothing is requested. */
  function AccessTtl(requested: Option<int64>): (seconds: int)
    ensures seconds <= MaxExpirySeconds
    ensures requested.None? ==> seconds == MaxExpirySeconds
    ensures requested.Some? ==> seconds <= requested.value
    ensures requested.Some? && seconds < requested.value ==> seconds == MaxExpirySeconds
  {
    match requested
    case None => MaxExpirySeconds
    case Some(n) => if n < MaxExpirySeconds then n else MaxExpirySeconds
  }

  /** Wherever the multiplication does not overflow, the handler's lifetime
      is the intended one. */
  lemma TtlAgreesWithoutOverflow(requested: Option<int64>)
    requires requested.Some? ==> Int64Min <= requested.value * NanosPerSecond <= Int64Max
    ensures AccessTtlAsWritten(requested) == AccessTtl(requested) * NanosPerSecond
  {
  }

  /** 9223372037 seconds overflows: the handler's lifetime is negative, so
      the token it signs has already expired, where the cap of one hour
      was meant. */
  lemma TtlOverflowCounterexample()
    ensures AccessTtlAsWritten(Some(9223372037)) == -9223372036709551616
    ensures AccessTtl(Some(9223372037)) == MaxExpirySeconds
  {
    var x := 9223372037 * NanosPerSecond;
    assert x == 9223372037000000000;
    assert Wrap64(x) == -9223372036709551616;
  }

  /** The wrap is periodic: past the first overflow the coded lifetime can
      be one hour again, or negative for a negative request. */
  lemma TtlWrapExamples()
    ensures AccessTtlAsWritten(Some(20000000000)) == MaxExpirySeconds * NanosPerSecond
    ensures AccessTtlAsWritten(Some(-18446744074)) == -290448384
  {
    assert Wrap64(20000000000 * NanosPerSecond) == 1553255926290448384;
    assert Wrap64(-18446744074 * NanosPerSecond) == -290448384;
  }

  lemma TtlExamples()
    ensures AccessTtl(None) == 3600
    ensures AccessTtl(Some(60)) == 60
    ensures AccessTtl(Some(7200)) == 3600
    ensures AccessTtl(Some(-5)) == -5
  {
  }

  // ------------------------------------------------------------- handler

  /** The checks made before the database is consulted. */
  predicate Admissible(r: LoginRequest) {
    !AllSpace(r.email) && r.password != Users.UnsetPassword
  }

  /** The email names a stored user whose hash matches the password. */
  predicate Authenticates(r: LoginRequest, db: Db, faults: Faults) {
    && !faults.read
    && UserByEmail(db.users, r.email).Some?
    && CheckPasswordHash(r.password, UserByEmail(db.users, r.email).value.hashedPassword)
  }

  function IssuedRefreshToken(token: string, user: User, now: int): RefreshToken {
    RefreshToken(token, now, now, user.id, now + RefreshLifetimeSeconds, None)
  }

  /** handlerLogin with the decoded body, the 32 random bytes the refresh
      token is made from, and one clock reading `now`. */
  function Login(req: Option<LoginRequest>, db: Db, cfg: Config, now: int, entropy: seq<byte>, faults: Faults): (out: Outcome<LoginResponse>)
    requires |entropy| == RefreshTokenBytes
    ensures out.response.status in {StatusOK, StatusBadRequest, StatusUnauthorized, StatusInternalServerError}
    ensures out.response.Reply? <==> out.response.status == StatusOK
    ensures out.response.status in {StatusBadRequest, StatusUnauthorized} ==> out.db == db
    ensures req.None? ==> out.response.status == StatusBadRequest
    ensures req.Some? && !Admissible(req.value) ==> out.response.status == StatusBadRequest
    ensures out.response.status == StatusUnauthorized <==>
              req.Some? && Admissible(req.value) && !Authenticates(req.value, db, faults)
    ensures out.response.status == StatusUnauthorized ==> out.response == Failure(StatusUnauthorized, BadCredentials)
    ensures out.response.status == StatusInternalServerError <==>
              && req.Some? && Admissible(req.value) && Authenticates(req.value, db, faults)
              && !faults.entropy && !faults.write && HexEncode(entropy) !in db.refreshTokens && faults.signer
    ensures out.response.status == StatusBadRequest <==>
              || req.None? || !Admissible(req.value)
              || (Authenticates(req.value, db, faults)
                  && (faults.entropy || faults.write || HexEncode(entropy) in db.refreshTokens))
    ensures out.response.status in {StatusOK, StatusInternalServerError} ==>
              && req.Some? && Authenticates(req.value, db, faults)
              && var user := UserByEmail(db.users, req.value.email).value;
              && HexEncode(entropy) !in db.refreshTokens
              && out.db == db.(refreshTokens := db.refreshTokens[HexEncode(entropy) := IssuedRefreshToken(HexEncode(entropy), user, now)])
    ensures out.response.Reply? ==>
              && out.response.status == StatusOK
              && req.Some? && UserByEmail(db.users, req.value.email).Some?
              && var user := UserByEmail(db.users, req.value.email).value;
              && out.response.body.id == user.id
              && out.response.body.createdAt == user.createdAt
              && out.response.body.updatedAt == user.updatedAt
              && out.response.body.email == req.value.email
              && out.response.body.isChirpyRed == user.isChirpyRed
              && out.response.body.refreshToken == HexEncode(entropy)
              && out.response.body.token == MakeJWT(user.id, cfg.jwtSecret, AccessTtl(req.value.expiresInSeconds), now, cfg.jose)
  {
    match req
    case None => Outcome(Failure(StatusBadRequest, "Failed to retrieve login request"), db)
    case Some(r) =>
      if TrimSpace(r.email) == "" then Outcome(Failure(StatusBadRequest, "Email is required"), db)
      else if r.password == Users.UnsetPassword then Outcome(Failure(StatusBadRequest, "Password is required"), db)
      else
        var found := if faults.read then None else UserByEmail(db.users, r.email);
        match found
        case None => Outcome(Failure(StatusUnauthorized, BadCredentials), db)
        case Some(user) =>
          if !CheckPasswordHash(r.password, user.hashedPassword) then
            Outcome(Failure(StatusUnauthorized, BadCredentials), db)
          else
            var ttl := AccessTtl(r.expiresInSeconds);
            match MakeRefreshToken(if faults.entropy then None else Some(entropy))
            case Err(_) => Outcome(Failure(StatusBadRequest, "Something went wrong"), db)
            case Ok(refresh) =>
              if faults.write || refresh in db.refreshTokens then
                Outcome(Failure(StatusBadRequest, "Something went wrong"), db)
              else
                var db' := db.(refreshTokens := db.refreshTokens[refresh := IssuedRefreshToken(refresh, user, now)]);
                if faults.signer then Outcome(Failure(StatusInternalServerError, "Failed to create JWT"), db')
                else
                  var token := MakeJWT(user.id, cfg.jwtSecret, ttl, now, cfg.jose);
                  Outcome(Reply(StatusOK, LoginResponse(user.id, user.createdAt, user.updatedAt, user.email,
                                                        token, refresh, user.isChirpyRed)), db')
  }

  /** An unknown email and a wrong password get the same status and the
      same message text and leave the store alike. The body format of the
      two answers (a JSON error object for the first, plain text for the
      second) is not part of `Response`. */
  lemma GenericCredentialFailure(unknown: LoginRequest, wrong: LoginRequest, db: Db, cfg: Config, now: int, entropy: seq<byte>, faults: Faults)
    requires |entropy| == RefreshTokenBytes
    requires Admissible(unknown) && Admissible(wrong)
    requires unknown.email !in Emails(db.users)
    requires wrong.email in Emails(db.users)
    requires !CheckPasswordHash(wrong.password, UserByEmail(db.users, wrong.email).value.hashedPassword)
    ensures Login(Some(unknown), db, cfg, now, entropy, faults) == Login(Some(wrong), db, cfg, now, entropy, faults)
  {
  }

  /** A successful login hands out an access token that authenticates the
      user until it expires, and a refresh token stored for that user. */
  lemma LoginTokenAuthenticates(r: LoginRequest, db: Db, cfg: Config, now: int, entropy: seq<byte>, faults: Faults, later: int)
    requires |entropy| == RefreshTokenBytes
    requires FaithfulCodec(cfg.jose)
    requires Login(Some(r), db, cfg, now, entropy, faults).response.Reply?
    requires now <= later < now + AccessTtl(r.expiresInSeconds)
    ensures var out := Login(Some(r), db, cfg, now, entropy, faults);
            && ValidateJWT(out.response.body.token, cfg.jwtSecret, later, cfg.jose) == Ok(out.response.body.id)
            && out.response.body.refreshToken in out.db.refreshTokens
            && out.db.refreshTokens[out.response.body.refreshToken].userId == out.response.body.id
            && out.db.refreshTokens[out.response.body.refreshToken].expiresAt == now + RefreshLifetimeSeconds
  {
    var out := Login(Some(r), db, cfg, now, entropy, faults);
    IssueThenValidate(cfg.jose, out.response.body.id, cfg.jwtSecret, AccessTtl(r.expiresInSeconds), now, later);
  }

  /** The requested access-token lifetime has no bearing on what is stored. */
  lemma RefreshLifetimeIndependentOfRequest(r: LoginRequest, n: Option<int64>, db: Db, cfg: Config, now: int, entropy: seq<byte>, faults: Faults)
    requires |entropy| == RefreshTokenBytes
    ensures Login(Some(r), db, cfg, now, entropy, faults).db
         == Login(Some(r.(expiresInSeconds := n)), db, cfg, now, entropy, faults).db
  {
    var r' := r.(expiresInSeconds := n);
    assert Admissible(r) == Admissible(r') && Authenticates(r, db, faults) == Authenticates(r', db, faults);
  }

  /** Login keeps every refresh token keyed by itself and owned by a user. */
  lemma LoginPreservesWellFormed(req: Option<LoginRequest>, db: Db, cfg: Config, now: int, entropy: seq<byte>, faults: Faults)
    requires |entropy| == RefreshTokenBytes
    requires WellFormed(db)
    ensures WellFormed(Login(req, db, cfg, now, entropy, faults).db)
  {
    var out := Login(req, db, cfg, now, entropy, faults);
    if out.response.status in {StatusOK, StatusInternalServerError} {
      var user := UserByEmail(db.users, req.value.email).value;
      assert user.id in UserIds(db.users);
      AddRefreshTokenWellFormed(db, IssuedRefreshToken(HexEncode(entropy), user, now));
    }
  }
}
