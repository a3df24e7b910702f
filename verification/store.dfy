/** The database behind the handlers, as values: the users and chirps
    tables in row order, the refresh tokens keyed by token, and the queries
    the handlers issue. Constraints the schema enforces (unique ids and
    emails, chirp owners that exist) appear as the failures of the
    inserting queries and as the invariant WellFormed. */
module Store {
  import opened Results
  import opened Uuids
  import opened Auth

  datatype User = User(
    id: Uuid,
    createdAt: int,
    updatedAt: int,
    email: string,
    hashedPassword: PasswordHash,
    isChirpyRed: bool)

  datatype Chirp = Chirp(id: Uuid, createdAt: int, updatedAt: int, body: string, userId: Uuid)

  datatype RefreshToken = RefreshToken(
    token: string,
    createdAt: int,
    updatedAt: int,
    userId: Uuid,
    expiresAt: int,
    revokedAt: Option<int>)

  datatype Db = Db(users: seq<User>, chirps: seq<Chirp>, refreshTokens: map<string, RefreshToken>)

  function UserIds(users: seq<User>): set<Uuid> {
    set u | u in users :: u.id
  }

  function Emails(users: seq<User>): set<string> {
    set u | u in users :: u.email
  }

  function ChirpIds(chirps: seq<Chirp>): set<Uuid> {
    set c | c in chirps :: c.id
  }

  /** No two chirps share an id. */
  predicate DistinctIds(cs: seq<Chirp>) {
    forall i, j :: 0 <= i < j < |cs| ==> cs[i].id != cs[j].id
  }

  /** What the schema guarantees of every state of the database. */
  predicate WellFormed(db: Db) {
    && (forall i, j :: 0 <= i < j < |db.users| ==> db.users[i].id != db.users[j].id)
    && (forall i, j :: 0 <= i < j < |db.users| ==> db.users[i].email != db.users[j].email)
    && DistinctIds(db.chirps)
    && (forall c :: c in db.chirps ==> c.userId in UserIds(db.users))
    && (forall t :: t in db.refreshTokens ==>
          db.refreshTokens[t].token == t && db.refreshTokens[t].userId in UserIds(db.users))
  }

  // ------------------------------------------------------------- queries

  /** GetUserByEmail: the row whose email is exactly `email`. */
  function UserByEmail(users: seq<User>, email: string): (r: Option<User>)
    ensures r.Some? ==> r.value in users && r.value.email == email
    ensures r.None? <==> email !in Emails(users)
  {
    if |users| == 0 then None
    else if users[0].email == email then Some(users[0])
    else
      var r := UserByEmail(users[1..], email);
      assert Emails(users) == {users[0].email} + Emails(users[1..]) by {
        assert forall u :: u in users <==> u == users[0] || u in users[1..];
      }
      r
  }

  /** A user appended with a new email is the one that email finds. */
  lemma {:induction false} UserByEmailAppend(users: seq<User>, u: User)
    requires u.email !in Emails(users)
    ensures UserByEmail(users + [u], u.email) == Some(u)
  {
    if |users| > 0 {
      assert (users + [u])[1..] == users[1..] + [u];
      assert users[0] in users;
      assert u.email !in Emails(users[1..]) by {
        assert forall v :: v in users[1..] ==> v in users;
      }
      UserByEmailAppend(users[1..], u);
    }
  }

  /** GetChirp: the row with primary key `id`. */
  function ChirpById(chirps: seq<Chirp>, id: Uuid): (r: Option<Chirp>)
    ensures r.Some? ==> r.value in chirps && r.value.id == id
    ensures r.None? <==> id !in ChirpIds(chirps)
  {
    if |chirps| == 0 then None
    else if chirps[0].id == id then Some(chirps[0])
    else
      var r := ChirpById(chirps[1..], id);
      assert ChirpIds(chirps) == {chirps[0].id} + ChirpIds(chirps[1..]) by {
        assert forall c :: c in chirps <==> c == chirps[0] || c in chirps[1..];
      }
      r
  }

  /** A chirp appended under a fresh id is the row that id then finds. */
  lemma {:induction false} ChirpByIdAppend(chirps: seq<Chirp>, c: Chirp)
    requires c.id !in ChirpIds(chirps)
    ensures ChirpById(chirps + [c], c.id) == Some(c)
  {
    if |chirps| == 0 {
    } else {
      assert chirps[0] in chirps;
      assert (chirps + [c])[1..] == chirps[1..] + [c];
      assert ChirpIds(chirps[1..]) <= ChirpIds(chirps) by {
        forall x | x in ChirpIds(chirps[1..]) ensures x in ChirpIds(chirps) {
          var d :| d in chirps[1..] && d.id == x;
          assert d in chirps;
        }
      }
      ChirpByIdAppend(chirps[1..], c);
    }
  }

  /** GetChirpsByAuthor: the author's rows, in table order. */
  function ChirpsByAuthor(chirps: seq<Chirp>, author: Uuid): (r: seq<Chirp>)
    ensures forall c :: multiset(r)[c] == if c.userId == author then multiset(chirps)[c] else 0
  {
    if |chirps| == 0 then []
    else
      assert chirps == [chirps[0]] + chirps[1..];
      (if chirps[0].userId == author then [chirps[0]] else []) + ChirpsByAuthor(chirps[1..], author)
  }

  /** RemoveChirp: the table without the row whose key is `id`; every other
      row stays, in order. */
  function WithoutChirp(chirps: seq<Chirp>, id: Uuid): (r: seq<Chirp>)
    ensures forall c :: multiset(r)[c] == if c.id == id then 0 else multiset(chirps)[c]
    ensures |r| <= |chirps|
  {
    if |chirps| == 0 then []
    else
      assert chirps == [chirps[0]] + chirps[1..];
      (if chirps[0].id == id then [] else [chirps[0]]) + WithoutChirp(chirps[1..], id)
  }

  /** UpgradeUser: the rows with the flag set on the user whose key is `id`;
      every other row unchanged. */
  function Upgraded(users: seq<User>, id: Uuid): (r: seq<User>)
    ensures |r| == |users|
    ensures forall i :: 0 <= i < |users| ==> r[i].(isChirpyRed := users[i].isChirpyRed) == users[i]
    ensures forall i :: 0 <= i < |users| ==> (r[i].isChirpyRed <==> users[i].isChirpyRed || users[i].id == id)
  {
    seq(|users|, i requires 0 <= i < |users| =>
      if users[i].id == id then users[i].(isChirpyRed := true) else users[i])
  }

  // ---------------------------------------------------------- invariants

  lemma DistinctIdsCons(c: Chirp, rest: seq<Chirp>)
    ensures DistinctIds([c] + rest) <==> DistinctIds(rest) && forall d :: d in rest ==> d.id != c.id
  {
    var r := [c] + rest;
    if DistinctIds(rest) && forall d :: d in rest ==> d.id != c.id {
      forall i, j | 0 <= i < j < |r| ensures r[i].id != r[j].id {
        assert r[j] == rest[j - 1];
        if i > 0 { assert r[i] == rest[i - 1]; }
      }
    }
    if DistinctIds(r) {
      forall i, j | 0 <= i < j < |rest| ensures rest[i].id != rest[j].id {
        assert rest[i] == r[i + 1] && rest[j] == r[j + 1];
      }
      forall d | d in rest ensures d.id != c.id {
        var k :| 0 <= k < |rest| && rest[k] == d;
        assert r[0] == c && r[k + 1] == d;
      }
    }
  }

  /** Removing rows keeps distinct ids distinct. */
  lemma {:induction false} WithoutChirpDistinct(chirps: seq<Chirp>, id: Uuid)
    requires DistinctIds(chirps)
    ensures DistinctIds(WithoutChirp(chirps, id))
  {
    if |chirps| > 0 {
      var rest := WithoutChirp(chirps[1..], id);
      assert chirps == [chirps[0]] + chirps[1..];
      DistinctIdsCons(chirps[0], chirps[1..]);
      WithoutChirpDistinct(chirps[1..], id);
      if chirps[0].id != id {
        forall d | d in rest ensures d.id != chirps[0].id {
          assert d in multiset(rest);
        }
        DistinctIdsCons(chirps[0], rest);
      }
    }
  }

  /** Adding a chirp with a fresh id and a stored owner keeps the store
      well formed. */
  lemma AppendChirpWellFormed(db: Db, c: Chirp)
    requires WellFormed(db)
    requires c.id !in ChirpIds(db.chirps) && c.userId in UserIds(db.users)
    ensures WellFormed(db.(chirps := db.chirps + [c]))
  {
    assert forall i :: 0 <= i < |db.chirps| ==> db.chirps[i] in db.chirps;
  }

  /** Removing a chirp keeps the store well formed. */
  lemma RemoveChirpWellFormed(db: Db, id: Uuid)
    requires WellFormed(db)
    ensures WellFormed(db.(chirps := WithoutChirp(db.chirps, id)))
  {
    var r := WithoutChirp(db.chirps, id);
    WithoutChirpDistinct(db.chirps, id);
    forall c | c in r ensures c in db.chirps {
      assert c in multiset(r);
    }
  }

  /** Adding a user with a fresh id and a fresh email keeps the store well
      formed. */
  lemma AppendUserWellFormed(db: Db, u: User)
    requires WellFormed(db)
    requires u.id !in UserIds(db.users) && u.email !in Emails(db.users)
    ensures WellFormed(db.(users := db.users + [u]))
  {
    var us := db.users + [u];
    assert forall i :: 0 <= i < |db.users| ==> db.users[i] in db.users;
    assert UserIds(db.users) <= UserIds(us) by {
      assert forall v :: v in db.users ==> v in us;
    }
  }

  /** Storing a refresh token under its own text, for a stored user, keeps
      the store well formed. */
  lemma AddRefreshTokenWellFormed(db: Db, t: RefreshToken)
    requires WellFormed(db)
    requires t.userId in UserIds(db.users)
    ensures WellFormed(db.(refreshTokens := db.refreshTokens[t.token := t]))
  {
  }

  /** Upgrading changes no key: the same ids and the same emails. */
  lemma UpgradedKeys(users: seq<User>, id: Uuid)
    ensures UserIds(Upgraded(users, id)) == UserIds(users)
    ensures Emails(Upgraded(users, id)) == Emails(users)
  {
    var us := Upgraded(users, id);
    forall x | x in UserIds(us) ensures x in UserIds(users) {
      var i :| 0 <= i < |us| && us[i].id == x;
      assert users[i] in users;
    }
    forall x | x in UserIds(users) ensures x in UserIds(us) {
      var i :| 0 <= i < |users| && users[i].id == x;
      assert us[i] in us;
    }
    forall x | x in Emails(us) ensures x in Emails(users) {
      var i :| 0 <= i < |us| && us[i].email == x;
      assert users[i] in users;
    }
    forall x | x in Emails(users) ensures x in Emails(us) {
      var i :| 0 <= i < |users| && users[i].email == x;
      assert us[i] in us;
    }
  }

  /** Upgrading keeps the store well formed. */
  lemma UpgradedWellFormed(db: Db, id: Uuid)
    requires WellFormed(db)
    ensures WellFormed(db.(users := Upgraded(db.users, id)))
  {
    UpgradedKeys(db.users, id);
  }
}
