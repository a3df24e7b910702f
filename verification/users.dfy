/** handle_users.go: registration. */
module Users {
  import opened Results
  import opened Encoding
  import opened Text
  import opened Uuids
  import opened Http
  import opened Auth
  import opened Store
  import opened Api

  datatype CreateUserRequest = CreateUserRequest(email: string, password: string)

  /** The public fields of a user; the password hash is not among them. */
  datatype UserResponse = UserResponse(id: Uuid, createdAt: int, updatedAt: int, email: string)

  /** The one password both registration and login refuse. */
  const UnsetPassword: string := "unset"

  function View(u: User): UserResponse {
    UserResponse(u.id, u.createdAt, u.updatedAt, u.email)
  }

  /** The row the database creates; `newId` and `now` are the values the
      database's defaults supply. */
  function NewUser(req: CreateUserRequest, hash: PasswordHash, newId: Uuid, now: int): User {
    User(newId, now, now, req.email, hash, false)
  }

  /** handlerCreateUser with the decoded body (None when it is not valid
      JSON), the salt bcrypt draws, and the id and time the database
      assigns. Insertion fails when the id or the email is already taken. */
  function CreateUser(req: Option<CreateUserRequest>, db: Db, newId: Uuid, now: int, salt: seq<byte>, faults: Faults): (out: Outcome<UserResponse>)
    ensures out.response.Failure? ==> out.db == db
    ensures out.response.status in {StatusCreated, StatusBadRequest, StatusInternalServerError}
    ensures req.None? ==> out.response.status == StatusBadRequest
    ensures req.Some? && AllSpace(req.value.email) ==> out.response.status == StatusBadRequest
    ensures req.Some? && req.value.password == UnsetPassword ==> out.response.status == StatusBadRequest
    ensures out.response.status == StatusInternalServerError <==>
              req.Some? && !AllSpace(req.value.email) && req.value.password != UnsetPassword && faults.hasher
    ensures out.response.status == StatusBadRequest <==>
              || req.None? || AllSpace(req.value.email) || req.value.password == UnsetPassword
              || (!faults.hasher && (faults.write || newId in UserIds(db.users) || req.value.email in Emails(db.users)))
    ensures out.response.Reply? <==> out.response.status == StatusCreated
    ensures out.response.Reply? ==>
              && out.response.status == StatusCreated
              && req.Some?
              && var u := NewUser(req.value, HashPassword(req.value.password, salt, false).value, newId, now);
              && out.db == db.(users := db.users + [u])
              && out.response.body == View(u)
              && CheckPasswordHash(req.value.password, u.hashedPassword)
  {
    match req
    case None => Outcome(Failure(StatusBadRequest, "Invalid request payload"), db)
    case Some(r) =>
      if TrimSpace(r.email) == "" then Outcome(Failure(StatusBadRequest, "Email is required"), db)
      else if r.password == UnsetPassword then Outcome(Failure(StatusBadRequest, "Password is required"), db)
      else
        match HashPassword(r.password, salt, faults.hasher)
        case Err(_) => Outcome(Failure(StatusInternalServerError, "Failed to hash password"), db)
        case Ok(hash) =>
          if faults.write || newId in UserIds(db.users) || r.email in Emails(db.users) then
            Outcome(Failure(StatusBadRequest, "Something went wrong"), db)
          else
            var u := NewUser(r, hash, newId, now);
            Outcome(Reply(StatusCreated, View(u)), db.(users := db.users + [u]))
  }

  /** Only the literal "unset" is refused; an empty password registers. */
  lemma EmptyPasswordAccepted(email: string, db: Db, newId: Uuid, now: int, salt: seq<byte>)
    requires !AllSpace(email) && newId !in UserIds(db.users) && email !in Emails(db.users)
    ensures var out := CreateUser(Some(CreateUserRequest(email, "")), db, newId, now, salt, NoFaults);
            && out.response.Reply?
            && UserByEmail(out.db.users, email).Some?
            && UserByEmail(out.db.users, email).value.id == newId
            && CheckPasswordHash("", UserByEmail(out.db.users, email).value.hashedPassword)
  {
    var out := CreateUser(Some(CreateUserRequest(email, "")), db, newId, now, salt, NoFaults);
    UserByEmailAppend(db.users, out.db.users[|db.users|]);
    assert out.db.users == db.users + [out.db.users[|db.users|]];
  }

  /** Registration keeps ids and emails unique and every reference valid. */
  lemma CreateUserPreservesWellFormed(req: Option<CreateUserRequest>, db: Db, newId: Uuid, now: int, salt: seq<byte>, faults: Faults)
    requires WellFormed(db)
    ensures WellFormed(CreateUser(req, db, newId, now, salt, faults).db)
  {
    var out := CreateUser(req, db, newId, now, salt, faults);
    if out.response.Reply? {
      AppendUserWellFormed(db, out.db.users[|db.users|]);
      assert out.db.users == db.users + [out.db.users[|db.users|]];
    }
  }
}
