/** The client's path through the handlers: register, log in, post a
    chirp with the access token, and find it in the author's listing. */
module Scenario {
  import opened Results
  import opened Encoding
  import opened Text
  import opened Uuids
  import opened Http
  import opened Auth
  import opened Store
  import opened Api
  import Users
  import Login
  import Chirps

  /** Registration succeeds for any admissible request with a fresh email
      and id, and stores the user so that the email finds it. */
  lemma RegisterStores(email: string, password: string, db: Db, userId: Uuid, now: int, salt: seq<byte>)
    requires !AllSpace(email) && password != Users.UnsetPassword
    requires email !in Emails(db.users) && userId !in UserIds(db.users)
    ensures var out := Users.CreateUser(Some(Users.CreateUserRequest(email, password)), db, userId, now, salt, NoFaults);
            && out.response == Reply(StatusCreated, Users.UserResponse(userId, now, now, email))
            && UserByEmail(out.db.users, email).Some?
            && UserByEmail(out.db.users, email).value.id == userId
            && CheckPasswordHash(password, UserByEmail(out.db.users, email).value.hashedPassword)
  {
    var out := Users.CreateUser(Some(Users.CreateUserRequest(email, password)), db, userId, now, salt, NoFaults);
    var u := User(userId, now, now, email, Bcrypt(DefaultCost, salt, password), false);
    assert out.db.users == db.users + [u];
    UserByEmailAppend(db.users, u);
  }

  /** Logging in with the registered password succeeds. */
  lemma LoginSucceeds(email: string, password: string, db: Db, cfg: Config, now: int, entropy: seq<byte>)
    requires |entropy| == RefreshTokenBytes && HexEncode(entropy) !in db.refreshTokens
    requires !AllSpace(email) && password != Users.UnsetPassword
    requires UserByEmail(db.users, email).Some?
    requires CheckPasswordHash(password, UserByEmail(db.users, email).value.hashedPassword)
    ensures var out := Login.Login(Some(Login.LoginRequest(email, password, None)), db, cfg, now, entropy, NoFaults);
            && out.response.Reply?
            && out.db.users == db.users && out.db.chirps == db.chirps
  {
    var r := Login.LoginRequest(email, password, None);
    assert Login.Admissible(r) && Login.Authenticates(r, db, NoFaults);
  }

  /** The token a successful login hands out, sent back as a bearer
      credential, names the user until it expires. */
  lemma LoginAuthenticates(email: string, password: string, db: Db, cfg: Config, now: int, entropy: seq<byte>, later: int)
    requires |entropy| == RefreshTokenBytes
    requires FaithfulCodec(cfg.jose) && CompactTokens(cfg.jose)
    requires Login.Login(Some(Login.LoginRequest(email, password, None)), db, cfg, now, entropy, NoFaults).response.Reply?
    requires now <= later < now + Login.MaxExpirySeconds
    ensures var out := Login.Login(Some(Login.LoginRequest(email, password, None)), db, cfg, now, entropy, NoFaults);
            && UserByEmail(db.users, email).Some?
            && Chirps.Caller(SingleHeader(AuthorizationHeader, BearerPrefix + out.response.body.token), cfg, later)
               == Ok(UserByEmail(db.users, email).value.id)
  {
    var r := Login.LoginRequest(email, password, None);
    var out := Login.Login(Some(r), db, cfg, now, entropy, NoFaults);
    Login.LoginTokenAuthenticates(r, db, cfg, now, entropy, NoFaults, later);
    BearerRoundTrip(out.response.body.token);
  }

  /** A sequence holding exactly one chirp is that chirp alone. */
  lemma SingletonSeq(s: seq<Chirp>, c: Chirp)
    requires multiset(s) == multiset{c}
    ensures s == [c]
  {
    assert |s| == |multiset(s)| == 1;
    assert s[0] in multiset(s);
  }

  /** An author whose only chirp is the newest row lists exactly that chirp. */
  lemma OnlyChirpListed(chirps: seq<Chirp>, c: Chirp, db: Db)
    requires db.chirps == chirps + [c]
    requires forall d :: d in chirps ==> d.userId != c.userId
    ensures Chirps.ListChirps(Format(c.userId), "", db, NoFaults) == Reply(StatusOK, [c])
  {
    ParseFormat(c.userId);
    var mine := ChirpsByAuthor(db.chirps, c.userId);
    forall x ensures multiset(mine)[x] == multiset{c}[x] {
      if x.userId == c.userId {
        assert x !in chirps;
        assert multiset(db.chirps) == multiset(chirps) + multiset{c};
      }
    }
    assert multiset(mine) == multiset{c};
    SingletonSeq(mine, c);
    SingletonSeq(Chirps.SortChirps(mine, false), c);
  }

  /** Register, log in, post, list: the chirp is stored under the
      registered user, masked, and is the only chirp the new author lists. */
  lemma RegisterLoginPostList(email: string, password: string, body: string, db: Db, cfg: Config,
                              userId: Uuid, chirpId: Uuid, salt: seq<byte>, entropy: seq<byte>,
                              t0: int, t1: int, t2: int)
    requires FaithfulCodec(cfg.jose) && CompactTokens(cfg.jose)
    requires WellFormed(db)
    requires !AllSpace(email) && password != Users.UnsetPassword
    requires email !in Emails(db.users) && userId !in UserIds(db.users)
    requires |entropy| == RefreshTokenBytes && HexEncode(entropy) !in db.refreshTokens
    requires chirpId !in ChirpIds(db.chirps) && !Chirps.TooLong(body)
    requires t1 <= t2 < t1 + Login.MaxExpirySeconds
    ensures
      var registered := Users.CreateUser(Some(Users.CreateUserRequest(email, password)), db, userId, t0, salt, NoFaults);
      var session := Login.Login(Some(Login.LoginRequest(email, password, None)), registered.db, cfg, t1, entropy, NoFaults);
      && registered.response.status == StatusCreated
      && session.response.Reply?
      && var headers := SingleHeader(AuthorizationHeader, BearerPrefix + session.response.body.token);
      var posted := Chirps.CreateChirp(headers, Some(Chirps.NewChirp(body, "")), session.db, cfg, t2, chirpId, NoFaults);
      var listed := Chirps.ListChirps(Format(userId), "", posted.db, NoFaults);
      && posted.response == Reply(StatusCreated, Chirp(chirpId, t2, t2, Chirps.GetCleanedBody(body, Chirps.BannedWords), userId))
      && listed == Reply(StatusOK, [posted.response.body])
  {
    var registered := Users.CreateUser(Some(Users.CreateUserRequest(email, password)), db, userId, t0, salt, NoFaults);
    RegisterStores(email, password, db, userId, t0, salt);
    var db1 := registered.db;
    assert HexEncode(entropy) !in db1.refreshTokens;
    var session := Login.Login(Some(Login.LoginRequest(email, password, None)), db1, cfg, t1, entropy, NoFaults);
    LoginSucceeds(email, password, db1, cfg, t1, entropy);
    LoginAuthenticates(email, password, db1, cfg, t1, entropy, t2);
    var db2 := session.db;
    var headers := SingleHeader(AuthorizationHeader, BearerPrefix + session.response.body.token);
    assert Chirps.Caller(headers, cfg, t2) == Ok(userId);
    assert userId in UserIds(db2.users) by {
      assert UserByEmail(db1.users, email).value in db1.users;
    }
    assert chirpId !in ChirpIds(db2.chirps);
    var posted := Chirps.CreateChirp(headers, Some(Chirps.NewChirp(body, "")), db2, cfg, t2, chirpId, NoFaults);
    assert posted.response.Reply?;
    var c := posted.response.body;
    assert posted.db.chirps == db2.chirps + [c];
    assert db2.chirps == db.chirps;
    forall d | d in db2.chirps ensures d.userId != c.userId {
      assert d.userId in UserIds(db.users);
    }
    OnlyChirpListed(db2.chirps, c, posted.db);
  }
}
