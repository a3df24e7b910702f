/** handle_webhooks.go: the payment provider's notification that upgrades
    a user to Chirpy Red. */
module Webhooks {
  import opened Results
  import opened Uuids
  import opened Http
  import opened Store
  import opened Api

  /** The decoded body: the event name and data.user_id. */
  datatype Webhook = Webhook(event: string, userId: Uuid)

  const UpgradeEvent: string := "user.upgraded"

  /** The key matches the configured one; `apiKey` is what GetAPIKey
      extracted from the Authorization header, None when it failed. */
  predicate KeyAccepted(apiKey: Option<string>, cfg: Config) {
    apiKey == Some(cfg.polkaKey)
  }

  /** handler_webhook with the decoded body (None when it is not valid
      JSON) and the extracted key. */
  function HandleWebhook(req: Option<Webhook>, apiKey: Option<string>, db: Db, cfg: Config, faults: Faults): (out: Outcome<()>)
    ensures out.response.status in {StatusNoContent, StatusBadRequest, StatusUnauthorized, StatusNotFound, StatusInternalServerError}
    ensures out.response.Failure? ==> out.db == db
    ensures out.db != db ==> out.response == Reply(StatusNoContent, ())
    ensures out.response.status == StatusBadRequest <==> req.None?
    ensures out.response.status == StatusUnauthorized <==> req.Some? && !KeyAccepted(apiKey, cfg)
    ensures req.Some? && KeyAccepted(apiKey, cfg) && req.value.event != UpgradeEvent ==>
              out == Outcome(Reply(StatusNoContent, ()), db)
    ensures out.response.status == StatusInternalServerError <==>
              req.Some? && KeyAccepted(apiKey, cfg) && req.value.event == UpgradeEvent && faults.write
    ensures out.response.status == StatusNotFound <==>
              && req.Some? && KeyAccepted(apiKey, cfg) && req.value.event == UpgradeEvent && !faults.write
              && req.value.userId !in UserIds(db.users)
    ensures req.Some? && KeyAccepted(apiKey, cfg) && req.value.event == UpgradeEvent && !faults.write
            && req.value.userId in UserIds(db.users) ==>
              out == Outcome(Reply(StatusNoContent, ()), db.(users := Upgraded(db.users, req.value.userId)))
  {
    match req
    case None => Outcome(Failure(StatusBadRequest, "Bad request"), db)
    case Some(hook) =>
      if apiKey.None? || apiKey.value != cfg.polkaKey then
        Outcome(Failure(StatusUnauthorized, "Invalid API key"), db)
      else if hook.event != UpgradeEvent then
        Outcome(Reply(StatusNoContent, ()), db)
      else if faults.write then
        Outcome(Failure(StatusInternalServerError, "Failed to upgrade user"), db)
      else if hook.userId !in UserIds(db.users) then
        Outcome(Failure(StatusNotFound, "User not found"), db)
      else
        Outcome(Reply(StatusNoContent, ()), db.(users := Upgraded(db.users, hook.userId)))
  }

  /** An upgrade sets the flag of the named user and changes nothing else:
      same rows in the same order, same ids, emails, hashes and times. */
  lemma UpgradeTouchesOnlyTheFlag(hook: Webhook, apiKey: Option<string>, db: Db, cfg: Config, faults: Faults)
    ensures var out := HandleWebhook(Some(hook), apiKey, db, cfg, faults);
            && |out.db.users| == |db.users|
            && out.db.chirps == db.chirps && out.db.refreshTokens == db.refreshTokens
            && UserIds(out.db.users) == UserIds(db.users)
            && Emails(out.db.users) == Emails(db.users)
            && (forall i :: 0 <= i < |db.users| ==>
                  out.db.users[i] == db.users[i].(isChirpyRed := out.db.users[i].isChirpyRed))
            && (forall i :: 0 <= i < |db.users| && db.users[i].id != hook.userId ==>
                  out.db.users[i] == db.users[i])
            && (out.response.status == StatusNoContent && hook.event == UpgradeEvent ==>
                  forall i :: 0 <= i < |db.users| && db.users[i].id == hook.userId ==> out.db.users[i].isChirpyRed)
  {
    var out := HandleWebhook(Some(hook), apiKey, db, cfg, faults);
    UpgradedKeys(db.users, hook.userId);
  }

  /** A repeated notification leaves the database as the first one did. */
  lemma UpgradeIdempotent(hook: Webhook, apiKey: Option<string>, db: Db, cfg: Config, faults: Faults)
    ensures var once := HandleWebhook(Some(hook), apiKey, db, cfg, faults);
            HandleWebhook(Some(hook), apiKey, once.db, cfg, faults).db == once.db
  {
    var once := HandleWebhook(Some(hook), apiKey, db, cfg, faults);
    UpgradeTouchesOnlyTheFlag(hook, apiKey, db, cfg, faults);
    if once.db != db {
      var us := Upgraded(db.users, hook.userId);
      assert Upgraded(us, hook.userId) == us;
    }
  }

  /** The body is decoded before the key is looked at: a malformed body
      gets 400 even without a valid key. */
  lemma MalformedBodyBeforeKey(apiKey: Option<string>, db: Db, cfg: Config, faults: Faults)
    ensures HandleWebhook(None, apiKey, db, cfg, faults) == Outcome(Failure(StatusBadRequest, "Bad request"), db)
  {
  }

  /** Upgrading keeps the database's keys unique and its references valid. */
  lemma WebhookPreservesWellFormed(req: Option<Webhook>, apiKey: Option<string>, db: Db, cfg: Config, faults: Faults)
    requires WellFormed(db)
    ensures WellFormed(HandleWebhook(req, apiKey, db, cfg, faults).db)
  {
    if req.Some? {
      UpgradedWellFormed(db, req.value.userId);
    }
  }
}
