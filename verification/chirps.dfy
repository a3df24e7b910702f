/** handle_chirp.go: the length gate and profanity masker applied to a new
    chirp, the listing with its author filter and creation-time order, and
    the decision chains of the create, get and delete handlers. */
module Chirps {
  import opened Results
  import opened Encoding
  import opened Text
  import opened Uuids
  import opened Http
  import opened Auth
  import opened Store
  import opened Api

  // ------------------------------------------------------ moderation

  /** The gate is on Go's len of the body: UTF-8 bytes, not characters. */
  const MaxChirpBytes: nat := 140

  const Mask: string := "****"

  /** The words handlerCreateChirp passes to the masker. */
  const BannedWords: set<string> := {"kerfuffle", "sharbert", "fornax"}

  predicate TooLong(body: string) {
    |Utf8(body)| > MaxChirpBytes
  }

  /** One field after masking. */
  function CleanWord(w: string, badWords: set<string>): string {
    if Lower(w) in badWords then Mask else w
  }

  function CleanWords(ws: seq<string>, badWords: set<string>): seq<string> {
    seq(|ws|, i requires 0 <= i < |ws| => CleanWord(ws[i], badWords))
  }

  /** Masking keeps fields free of spaces, so the masked fields are what
      splitting their join gives back. */
  lemma MaskedFieldsSplit(fields: seq<string>, badWords: set<string>)
    requires |fields| > 0 && forall i :: 0 <= i < |fields| ==> ' ' !in fields[i]
    ensures Split(Join(CleanWords(fields, badWords), ' '), ' ') == CleanWords(fields, badWords)
  {
    var ws := CleanWords(fields, badWords);
    forall i | 0 <= i < |ws| ensures ' ' !in ws[i] {
      assert ws[i] == Mask || ws[i] == fields[i];
    }
    SplitJoin(ws, ' ');
  }

  /** getCleanedBody: split on single spaces, mask every field whose lower
      case is a banned word, join with single spaces. The masked body has
      the same space-separated fields as the original, except that each
      field whose lower case is banned reads "****". */
  function GetCleanedBody(body: string, badWords: set<string>): (r: string)
    ensures var fields := Split(body, ' ');
            var cleaned := Split(r, ' ');
            && |cleaned| == |fields|
            && forall i :: 0 <= i < |fields| ==>
                 cleaned[i] == if Lower(fields[i]) in badWords then Mask else fields[i]
  {
    MaskedFieldsSplit(Split(body, ' '), badWords);
    Join(CleanWords(Split(body, ' '), badWords), ' ')
  }

  /** Without a banned field the body comes back exactly, runs of spaces
      and all, because splitting and joining on one space round-trip. */
  lemma NothingBannedUnchanged(body: string, badWords: set<string>)
    requires forall i :: 0 <= i < |Split(body, ' ')| ==> Lower(Split(body, ' ')[i]) !in badWords
    ensures GetCleanedBody(body, badWords) == body
  {
    var fields := Split(body, ' ');
    assert CleanWords(fields, badWords) == fields;
    JoinSplit(body, ' ');
  }

  /** Masking twice is masking once, as long as the mask itself is not a
      banned word. */
  lemma CleanIdempotent(body: string, badWords: set<string>)
    requires Mask !in badWords
    ensures GetCleanedBody(GetCleanedBody(body, badWords), badWords) == GetCleanedBody(body, badWords)
  {
    var once := GetCleanedBody(body, badWords);
    var fields := Split(once, ' ');
    assert Lower(Mask) == Mask;
    forall i | 0 <= i < |fields| ensures Lower(fields[i]) !in badWords {
      if fields[i] == Mask {
      } else {
        assert Lower(Split(body, ' ')[i]) !in badWords;
      }
    }
    NothingBannedUnchanged(once, badWords);
  }

  /** Byte lengths of joined fields are monotone in the fields' byte lengths. */
  lemma {:induction false} JoinNoLonger(xs: seq<string>, ys: seq<string>)
    requires |xs| == |ys|
    requires forall i :: 0 <= i < |xs| ==> |Utf8(xs[i])| <= |Utf8(ys[i])|
    ensures |Utf8(Join(xs, ' '))| <= |Utf8(Join(ys, ' '))|
  {
    if |xs| > 1 {
      JoinNoLonger(xs[1..], ys[1..]);
      Utf8Append(xs[0] + [' '], Join(xs[1..], ' '));
      Utf8Append(xs[0], [' ']);
      Utf8Append(ys[0] + [' '], Join(ys[1..], ' '));
      Utf8Append(ys[0], [' ']);
    }
  }

  /** Masking never lengthens the body in bytes when no banned word is
      shorter than the mask, so a body that passed the gate stays within it. */
  lemma CleanedNoLonger(body: string, badWords: set<string>)
    requires forall w :: w in badWords ==> |w| >= |Mask|
    ensures |Utf8(GetCleanedBody(body, badWords))| <= |Utf8(body)|
  {
    var fields := Split(body, ' ');
    var ws := CleanWords(fields, badWords);
    forall i | 0 <= i < |ws| ensures |Utf8(ws[i])| <= |Utf8(fields[i])| {
      if Lower(fields[i]) in badWords {
        assert IsAscii(Mask);
        assert |Utf8(Mask)| == |Mask|;
      }
    }
    JoinNoLonger(ws, fields);
    JoinSplit(body, ' ');
  }

  /** Whole words only, in any letter case. */
  lemma MaskingExamples()
    ensures CleanWord("KerFuffle", BannedWords) == Mask
    ensures CleanWord("\U{212A}erfuffle", BannedWords) == Mask
    ensures CleanWord("kerfuffle!", BannedWords) == "kerfuffle!"
    ensures CleanWord("kerfuffles", BannedWords) == "kerfuffles"
    ensures CleanWord("FORNAX", BannedWords) == Mask
  {
    assert Lower("KerFuffle") == "kerfuffle";
    assert Lower("\U{212A}erfuffle") == "kerfuffle";
    assert |Lower("kerfuffle!")| == 10;
    assert |Lower("kerfuffles")| == 10;
    assert Lower("FORNAX") == "fornax";
  }

  /** The gate counts bytes: 140 ASCII characters pass, 141 do not, and 47
      three-byte characters (141 bytes) do not either. */
  lemma TooLongExamples()
    ensures !TooLong(seq(140, i => 'a'))
    ensures TooLong(seq(141, i => 'a'))
    ensures TooLong(seq(47, i => '\U{20AC}'))
  {
    var ok := seq(140, i => 'a');
    assert IsAscii(ok);
    var long := seq(141, i => 'a');
    assert IsAscii(long);
    ThreeByteRunes(seq(47, i => '\U{20AC}'));
  }

  lemma {:induction false} ThreeByteRunes(s: string)
    requires forall i :: 0 <= i < |s| ==> s[i] == '\U{20AC}'
    ensures |Utf8(s)| == 3 * |s|
  {
    if |s| > 0 {
      ThreeByteRunes(s[1..]);
    }
  }

  // ------------------------------------------------------------ listing

  /** `a` may come before `b`: not later when ascending, not earlier when
      descending. */
  predicate InOrder(a: Chirp, b: Chirp, descending: bool) {
    if descending then a.createdAt >= b.createdAt else a.createdAt <= b.createdAt
  }

  predicate Ordered(cs: seq<Chirp>, descending: bool) {
    forall i, j :: 0 <= i < j < |cs| ==> InOrder(cs[i], cs[j], descending)
  }

  /** An element that may precede everything in an ordered sequence may
      head it. */
  lemma PrependOrdered(x: Chirp, rest: seq<Chirp>, descending: bool)
    requires Ordered(rest, descending)
    requires forall y :: y in rest ==> InOrder(x, y, descending)
    ensures Ordered([x] + rest, descending)
  {
    var r := [x] + rest;
    forall i, j | 0 <= i < j < |r| ensures InOrder(r[i], r[j], descending) {
      assert r[j] == rest[j - 1];
      if i > 0 { assert r[i] == rest[i - 1]; }
    }
  }

  /** `c` placed into an ordered sequence before the first element it may
      precede. */
  function Insert(c: Chirp, cs: seq<Chirp>, descending: bool): (r: seq<Chirp>)
    requires Ordered(cs, descending)
    ensures Ordered(r, descending)
    ensures multiset(r) == multiset(cs) + multiset{c}
  {
    if |cs| == 0 then [c]
    else if InOrder(c, cs[0], descending) then
      PrependOrdered(c, cs, descending);
      [c] + cs
    else
      var rest := Insert(c, cs[1..], descending);
      assert cs == [cs[0]] + cs[1..];
      assert forall y :: y in rest ==> InOrder(cs[0], y, descending) by {
        forall y | y in rest ensures InOrder(cs[0], y, descending) {
          assert y in multiset(rest);
          if y != c {
            assert y in multiset(cs[1..]);
            var k :| 0 <= k < |cs[1..]| && cs[1..][k] == y;
            assert cs[k + 1] == y;
          }
        }
      }
      PrependOrdered(cs[0], rest, descending);
      [cs[0]] + rest
  }

  /** sort.Slice by creation time. Go leaves the order of equal times
      unspecified; this model keeps one admissible order. */
  function SortChirps(cs: seq<Chirp>, descending: bool): (r: seq<Chirp>)
    ensures Ordered(r, descending)
    ensures multiset(r) == multiset(cs)
  {
    if |cs| == 0 then []
    else
      assert cs == [cs[0]] + cs[1..];
      Insert(cs[0], SortChirps(cs[1..], descending), descending)
  }

  /** handlerGetAllChirps, with the query parameters as Query().Get returns
      them ("" when absent). */
  function ListChirps(authorId: string, sortParam: string, db: Db, faults: Faults): (r: Response<seq<Chirp>>)
    ensures r.Reply? ==> r.status == StatusOK && Ordered(r.body, sortParam == "desc")
    ensures r.Reply? && authorId == "" ==> multiset(r.body) == multiset(db.chirps)
    ensures r.Reply? && authorId != "" ==>
              Parse(authorId).Ok? && multiset(r.body) == multiset(ChirpsByAuthor(db.chirps, Parse(authorId).value))
    ensures r.Failure? ==> r.status in {StatusBadRequest, StatusInternalServerError}
    ensures r.Failure? && r.status == StatusBadRequest <==> authorId != "" && Parse(authorId).Err?
    ensures r.Failure? && r.status == StatusInternalServerError <==>
              faults.read && (authorId == "" || Parse(authorId).Ok?)
  {
    var fetched: Result<seq<Chirp>, int> :=
      if authorId == "" then
        if faults.read then Err(StatusInternalServerError) else Ok(db.chirps)
      else
        match Parse(authorId)
        case Err(_) => Err(StatusBadRequest)
        case Ok(uid) =>
          if faults.read then Err(StatusInternalServerError) else Ok(ChirpsByAuthor(db.chirps, uid));
    match fetched
    case Err(status) =>
      if status == StatusBadRequest then Failure(status, "invalid authorId")
      else Failure(status, "Failed to retrieve chirps")
    case Ok(chirps) => Reply(StatusOK, SortChirps(chirps, sortParam == "desc"))
  }

  // ---------------------------------------------------------------- get

  /** handlerGetChirp: only a missing row is 404; any other lookup error
      is 500. */
  function GetChirp(chirpId: string, db: Db, faults: Faults): (r: Response<Chirp>)
    ensures r.Reply? <==> Parse(chirpId).Ok? && !faults.read && Parse(chirpId).value in ChirpIds(db.chirps)
    ensures r.Reply? ==> r.status == StatusOK && r.body in db.chirps && Parse(chirpId) == Ok(r.body.id)
    ensures r.Failure? ==> r.status in {StatusBadRequest, StatusNotFound, StatusInternalServerError}
    ensures r.Failure? && r.status == StatusBadRequest <==> Parse(chirpId).Err?
    ensures r.Failure? && r.status == StatusInternalServerError <==> Parse(chirpId).Ok? && faults.read
    ensures r.Failure? && r.status == StatusNotFound <==>
              Parse(chirpId).Ok? && !faults.read && Parse(chirpId).value !in ChirpIds(db.chirps)
  {
    match Parse(chirpId)
    case Err(_) => Failure(StatusBadRequest, "invalid chirpId")
    case Ok(uid) =>
      if faults.read then Failure(StatusInternalServerError, "Failed to retrieve chirp")
      else
        match ChirpById(db.chirps, uid)
        case None => Failure(StatusNotFound, "Chirp not found")
        case Some(c) => Reply(StatusOK, c)
  }

  // ------------------------------------------------------------- create

  /** The decoded request body; `userId` is read but never used. */
  datatype NewChirp = NewChirp(body: string, userId: string)

  /** The caller the bearer token names, if it names one. */
  function Caller(headers: Headers, cfg: Config, now: int): (r: Result<Uuid, AuthError>)
    ensures GetBearerToken(headers).Err? ==> r == Err(GetBearerToken(headers).error)
    ensures r.Err? ==> (r.error in {MissingHeader, WrongScheme, EmptyBearer} <==> GetBearerToken(headers).Err?)
    ensures GetBearerToken(headers).Ok? ==> r == ValidateJWT(GetBearerToken(headers).value, cfg.jwtSecret, now, cfg.jose)
  {
    match GetBearerToken(headers)
    case Err(e) => Err(e)
    case Ok(token) => ValidateJWT(token, cfg.jwtSecret, now, cfg.jose)
  }

  /** handlerCreateChirp at time `now`, with `newId` the id uuid.New draws
      and `req` the decoded body (None when it is not valid JSON). */
  function CreateChirp(headers: Headers, req: Option<NewChirp>, db: Db, cfg: Config, now: int, newId: Uuid, faults: Faults): (out: Outcome<Chirp>)
    ensures out.response.status in {StatusCreated, StatusBadRequest, StatusUnauthorized, StatusInternalServerError}
    ensures out.response.Failure? ==> out.db == db
    ensures out.response.status == StatusUnauthorized <==> Caller(headers, cfg, now).Err?
    ensures out.response.status == StatusBadRequest <==>
              Caller(headers, cfg, now).Ok? && (req.None? || TooLong(req.value.body))
    ensures out.response.status == StatusInternalServerError <==>
              && Caller(headers, cfg, now).Ok? && req.Some? && !TooLong(req.value.body)
              && (faults.write || newId in ChirpIds(db.chirps) || Caller(headers, cfg, now).value !in UserIds(db.users))
    ensures out.response.Reply? <==>
              && Caller(headers, cfg, now).Ok? && req.Some? && !TooLong(req.value.body)
              && !faults.write && newId !in ChirpIds(db.chirps) && Caller(headers, cfg, now).value in UserIds(db.users)
    ensures out.response.Reply? ==>
              && out.response.status == StatusCreated
              && req.Some? && !TooLong(req.value.body)
              && out.response.body == Chirp(newId, now, now, GetCleanedBody(req.value.body, BannedWords), Caller(headers, cfg, now).value)
              && out.db == db.(chirps := db.chirps + [out.response.body])
  {
    match Caller(headers, cfg, now)
    case Err(e) =>
      if e in {MissingHeader, WrongScheme, EmptyBearer} then
        Outcome(Failure(StatusUnauthorized, "missing or invalid authorization header"), db)
      else Outcome(Failure(StatusUnauthorized, "invalid or expired token"), db)
    case Ok(userId) =>
      match req
      case None => Outcome(Failure(StatusBadRequest, "invalid JSON"), db)
      case Some(chirpIn) =>
        if TooLong(chirpIn.body) then Outcome(Failure(StatusBadRequest, "chirp is too long"), db)
        else
          var chirp := Chirp(newId, now, now, GetCleanedBody(chirpIn.body, BannedWords), userId);
          if faults.write || newId in ChirpIds(db.chirps) || userId !in UserIds(db.users) then
            Outcome(Failure(StatusInternalServerError, "could not create chirp"), db)
          else Outcome(Reply(StatusCreated, chirp), db.(chirps := db.chirps + [chirp]))
  }

  /** The owner of a new chirp comes from the token alone: the user_id of
      the body makes no difference to anything the handler does. */
  lemma OwnerComesFromToken(headers: Headers, body: string, claimed: string, other: string,
                            db: Db, cfg: Config, now: int, newId: Uuid, faults: Faults)
    ensures CreateChirp(headers, Some(NewChirp(body, claimed)), db, cfg, now, newId, faults)
         == CreateChirp(headers, Some(NewChirp(body, other)), db, cfg, now, newId, faults)
  {
    var a := CreateChirp(headers, Some(NewChirp(body, claimed)), db, cfg, now, newId, faults);
    var b := CreateChirp(headers, Some(NewChirp(body, other)), db, cfg, now, newId, faults);
    match Caller(headers, cfg, now)
    case Err(e) =>
    case Ok(userId) =>
      if !TooLong(body) {
        var chirp := Chirp(newId, now, now, GetCleanedBody(body, BannedWords), userId);
        assert a.response.Reply? ==> a.response.body == chirp;
      }
  }

  lemma BannedWordsOutlastMask()
    ensures forall w :: w in BannedWords ==> |w| >= |Mask|
  {
    forall w | w in BannedWords ensures |w| >= |Mask| {
      assert w == "kerfuffle" || w == "sharbert" || w == "fornax";
    }
  }

  /** A stored chirp is within the length limit after masking too. */
  lemma StoredChirpWithinLimit(headers: Headers, req: Option<NewChirp>, db: Db, cfg: Config, now: int, newId: Uuid, faults: Faults)
    requires CreateChirp(headers, req, db, cfg, now, newId, faults).response.Reply?
    ensures !TooLong(CreateChirp(headers, req, db, cfg, now, newId, faults).response.body.body)
  {
    var out := CreateChirp(headers, req, db, cfg, now, newId, faults);
    assert out.response.body.body == GetCleanedBody(req.value.body, BannedWords);
    BannedWordsOutlastMask();
    CleanedNoLonger(req.value.body, BannedWords);
  }

  /** Creating a chirp keeps chirp ids unique and every chirp owned by a
      stored user. */
  lemma CreateChirpPreservesWellFormed(headers: Headers, req: Option<NewChirp>, db: Db, cfg: Config, now: int, newId: Uuid, faults: Faults)
    requires WellFormed(db)
    ensures WellFormed(CreateChirp(headers, req, db, cfg, now, newId, faults).db)
  {
    var out := CreateChirp(headers, req, db, cfg, now, newId, faults);
    if out.response.Reply? {
      AppendChirpWellFormed(db, out.response.body);
    }
  }

  /** A chirp the create handler stores is the one reading its id then
      answers with. */
  lemma CreatedChirpReadable(headers: Headers, req: Option<NewChirp>, db: Db, cfg: Config, now: int, newId: Uuid,
                             faults: Faults, later: Faults)
    requires CreateChirp(headers, req, db, cfg, now, newId, faults).response.Reply?
    requires !later.read
    ensures var out := CreateChirp(headers, req, db, cfg, now, newId, faults);
            GetChirp(Format(newId), out.db, later) == Reply(StatusOK, out.response.body)
  {
    var out := CreateChirp(headers, req, db, cfg, now, newId, faults);
    ParseFormat(newId);
    ChirpByIdAppend(db.chirps, out.response.body);
  }

  // ------------------------------------------------------------- delete

  /** The caller is authenticated, the id parses and the lookup finds a
      chirp under it. */
  predicate Found(headers: Headers, chirpId: string, db: Db, cfg: Config, now: int, faults: Faults) {
    Caller(headers, cfg, now).Ok? && Parse(chirpId).Ok? && !faults.read && Parse(chirpId).value in ChirpIds(db.chirps)
  }

  /** The chirp found under the id belongs to the caller. */
  predicate OwnedByCaller(headers: Headers, chirpId: string, db: Db, cfg: Config, now: int)
    requires Caller(headers, cfg, now).Ok? && Parse(chirpId).Ok? && Parse(chirpId).value in ChirpIds(db.chirps)
  {
    ChirpById(db.chirps, Parse(chirpId).value).value.userId == Caller(headers, cfg, now).value
  }

  /** handlerDeleteChirp: 401 for a missing or invalid token, 400 for a bad
      id, 404 for any failed lookup, 403 for another user's chirp, and
      otherwise exactly that chirp is removed. */
  function DeleteChirp(headers: Headers, chirpId: string, db: Db, cfg: Config, now: int, faults: Faults): (out: Outcome<()>)
    ensures out.response.status in {StatusNoContent, StatusBadRequest, StatusUnauthorized,
                                    StatusForbidden, StatusNotFound, StatusInternalServerError}
    ensures out.response.status != StatusNoContent ==> out.db == db
    ensures out.response.status == StatusUnauthorized <==> Caller(headers, cfg, now).Err?
    ensures out.response.status == StatusBadRequest <==> Caller(headers, cfg, now).Ok? && Parse(chirpId).Err?
    ensures out.response.status == StatusNotFound <==>
              Caller(headers, cfg, now).Ok? && Parse(chirpId).Ok?
              && (faults.read || Parse(chirpId).value !in ChirpIds(db.chirps))
    ensures out.response.status == StatusForbidden <==>
              Found(headers, chirpId, db, cfg, now, faults) && !OwnedByCaller(headers, chirpId, db, cfg, now)
    ensures out.response.status == StatusInternalServerError <==>
              Found(headers, chirpId, db, cfg, now, faults) && OwnedByCaller(headers, chirpId, db, cfg, now) && faults.write
    ensures out.response.status == StatusNoContent <==>
              Found(headers, chirpId, db, cfg, now, faults) && OwnedByCaller(headers, chirpId, db, cfg, now) && !faults.write
    ensures out.response.status == StatusNoContent ==>
              && out.response.Reply?
              && out.db == db.(chirps := WithoutChirp(db.chirps, Parse(chirpId).value))
  {
    match Caller(headers, cfg, now)
    case Err(e) =>
      if e in {MissingHeader, WrongScheme, EmptyBearer} then
        Outcome(Failure(StatusUnauthorized, "Failed to Get token"), db)
      else Outcome(Failure(StatusUnauthorized, "Invalid token"), db)
    case Ok(userId) =>
      match Parse(chirpId)
      case Err(_) => Outcome(Failure(StatusBadRequest, "invalid chirpID"), db)
      case Ok(uid) =>
        var found := if faults.read then None else ChirpById(db.chirps, uid);
        match found
        case None => Outcome(Failure(StatusNotFound, "Chirp not found"), db)
        case Some(chirp) =>
          if chirp.userId != userId then
            Outcome(Failure(StatusForbidden, "You do not have permission to delete this chirp"), db)
          else if faults.write then Outcome(Failure(StatusInternalServerError, "Failed to delete chirp"), db)
          else Outcome(Reply(StatusNoContent, ()), db.(chirps := WithoutChirp(db.chirps, uid)))
  }

  /** A lookup that fails for a reason other than a missing row is 404 when
      deleting but 500 when reading. */
  lemma LookupFailureDiffers(headers: Headers, chirpId: string, db: Db, cfg: Config, now: int, faults: Faults)
    requires Caller(headers, cfg, now).Ok? && Parse(chirpId).Ok? && faults.read
    ensures DeleteChirp(headers, chirpId, db, cfg, now, faults).response.status == StatusNotFound
    ensures GetChirp(chirpId, db, faults).status == StatusInternalServerError
  {
  }

  /** Deleting a chirp removes one row and so keeps every invariant. */
  lemma DeleteChirpPreservesWellFormed(headers: Headers, chirpId: string, db: Db, cfg: Config, now: int, faults: Faults)
    requires WellFormed(db)
    ensures WellFormed(DeleteChirp(headers, chirpId, db, cfg, now, faults).db)
  {
    var out := DeleteChirp(headers, chirpId, db, cfg, now, faults);
    if out.db != db {
      RemoveChirpWellFormed(db, Parse(chirpId).value);
    }
  }
}
