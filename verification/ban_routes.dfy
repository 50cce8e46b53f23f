/**
 * The ban handlers (api/v1/bans/ban_routes.py). "Moderator" means: some
 * moderator row names the caller as `mod_user`. The row's `mod_for` is never
 * consulted, so a moderator of anything may ban, list and unban anyone.
 */
module BanRoutes {
  import opened Wrappers
  import opened Http
  import opened Schema
  import opened Store

  /** `BanSchema`: all three fields are required. */
  datatype BanBody = BanBody(pollOwnerId: string, bannedBy: string, userId: string)

  const BannedMessage := "user has been banned from voting"

  /**
   * The moderator test of every ban handler: the user is the `mod_user` of
   * some moderator row, whatever that row's `mod_for`.
   */
  predicate IsModerator(mods: map<int, Moderator>, uid: string)
    ensures IsModerator(mods, uid) <==> uid in (set m | m in mods :: mods[m].modUser)
    ensures mods == map[] ==> !IsModerator(mods, uid)
  {
    exists m :: m in mods && mods[m].modUser == uid
  }

  /**
   * The test sees only `mod_user`: two moderator tables that agree on it
   * row by row answer alike, whatever their `mod_for` and creators say.
   */
  lemma ModeratorScopeIgnored(a: map<int, Moderator>, b: map<int, Moderator>, uid: string)
    requires a.Keys == b.Keys
    requires forall m :: m in a ==> a[m].modUser == b[m].modUser
    ensures IsModerator(a, uid) <==> IsModerator(b, uid)
  {
    if IsModerator(a, uid) {
      var m :| m in a && a[m].modUser == uid;
      assert b[m].modUser == uid;
    }
    if IsModerator(b, uid) {
      var m :| m in b && b[m].modUser == uid;
      assert a[m].modUser == uid;
    }
  }

  /** The row `ban_user` inserts under `id`: the body's three fields as sent. */
  function NewBanRow(id: int, body: BanBody, now: int): (b: Ban) {
    Ban(id, body.pollOwnerId, body.bannedBy, body.userId, now)
  }

  /**
   * `ban_user`: the caller is dereferenced first, then the path user must
   * exist (404), then the caller must be a moderator (403). The inserted row
   * comes from the body alone; the path user is only tested for existence,
   * and an earlier ban of the same user does not stop another.
   */
  method BanUser(db: Database, userId: string, body: BanBody, caller: Option<User>, now: int)
    returns (o: Outcome<string>)
    requires db.Valid()
    modifies db
    ensures db.Valid()
    ensures caller.None? ==> o == Abort(MissingCaller)
    ensures caller.Some? && userId !in old(db.users) ==> o == Raise(NOT_FOUND, "user not found")
    ensures caller.Some? && userId in old(db.users) && !IsModerator(old(db.moderators), caller.value.uuidPk) ==>
              o == Raise(FORBIDDEN, "access denied")
    ensures caller.Some? && userId in old(db.users) && IsModerator(old(db.moderators), caller.value.uuidPk) ==>
              var row := NewBanRow(old(db.serials.ban) + 1, body, now);
              match BanFault(old(db.Tables()), row)
              case Some(fault) => o == Abort(fault)
              case None =>
                && o == Created(BannedMessage)
                && db.Tables() == old(db.Tables()).(bans := old(db.bans)[row.id := row])
                && db.serials == old(db.serials).(ban := row.id)
    ensures !o.Created? ==> db.Tables() == old(db.Tables()) && db.serials == old(db.serials)
  {
    if caller.None? {
      return Abort(MissingCaller);
    }
    if userId !in db.users {
      return Raise(NOT_FOUND, "user not found");
    }
    if !IsModerator(db.moderators, caller.value.uuidPk) {
      return Raise(FORBIDDEN, "access denied");
    }
    var row := NewBanRow(db.serials.ban + 1, body, now);
    var fault := BanFault(db.Tables(), row);
    if fault.Some? {
      return Abort(fault.value);
    }
    PutBanConsistent(db.Tables(), row);
    var next := db.Tables().(bans := db.bans[row.id := row]);
    assert Behind(next, db.serials.(ban := row.id));
    db.Commit(next, db.serials.(ban := row.id));
    return Created(BannedMessage);
  }

  /**
   * A second, identical ban is admitted: a moderator who banned once can ban
   * the same user again with the same body, and the table then holds both.
   */
  lemma RepeatBanAdmitted(t: Tables, b: int, id: int, now: int)
    requires Consistent(t) && b in t.bans
    ensures BanFault(t, NewBanRow(id, BanBody(t.bans[b].pollOwnerId, t.bans[b].bannedBy, t.bans[b].userId), now)).None?
  {
  }

  /**
   * `get_user` as written: its first statement awaits the synchronous result
   * of `query(...).first()`, which is a row or None and cannot be awaited, so
   * every call fails before the caller or the tables are looked at.
   */
  method GetUserAsWritten(db: Database, userId: string, caller: Option<User>) returns (o: Outcome<Ban>)
    requires db.Valid()
    ensures o == Abort(NotAwaitable)
  {
    return Abort(NotAwaitable);
  }

  /** Whether some ban names `userId` as the banned user. */
  predicate IsBanned(bans: map<int, Ban>, userId: string) {
    exists b :: b in bans && bans[b].userId == userId
  }

  /**
   * `get_user` as evidently intended, without the awaits: a ban of the user
   * (any one of them) for a moderator, 404 for a moderator when there is
   * none, 400 for everyone else.
   */
  method GetUser(db: Database, userId: string, caller: Option<User>) returns (o: Outcome<Ban>)
    requires db.Valid()
    ensures caller.None? ==> o == Abort(MissingCaller)
    ensures caller.Some? && IsModerator(db.moderators, caller.value.uuidPk) && !IsBanned(db.bans, userId) ==>
              o == Raise(NOT_FOUND, "user not found")
    ensures caller.Some? && IsModerator(db.moderators, caller.value.uuidPk) && IsBanned(db.bans, userId) ==>
              o.Ok? && o.value in db.bans.Values && o.value.userId == userId
    ensures caller.Some? && !IsModerator(db.moderators, caller.value.uuidPk) ==>
              o == Raise(BAD_REQUEST, "not implemented")
  {
    if caller.None? {
      return Abort(MissingCaller);
    }
    var moderator := IsModerator(db.moderators, caller.value.uuidPk);
    if !IsBanned(db.bans, userId) && moderator {
      return Raise(NOT_FOUND, "user not found");
    }
    if IsBanned(db.bans, userId) && moderator {
      var b :| b in db.bans && db.bans[b].userId == userId;
      return Ok(db.bans[b]);
    }
    return Raise(BAD_REQUEST, "not implemented");
  }

  /**
   * `unban_user`: the caller is dereferenced first; a moderator gets 404
   * when no ban names the user, and anyone else gets 400. A moderator's
   * unban removes every ban of the user, whoever the poll owner.
   */
  method UnbanUser(db: Database, userId: string, caller: Option<User>) returns (o: Outcome<()>)
    requires db.Valid()
    modifies db
    ensures db.Valid() && db.serials == old(db.serials)
    ensures caller.None? ==> o == Abort(MissingCaller)
    ensures caller.Some? && IsModerator(old(db.moderators), caller.value.uuidPk) && !IsBanned(old(db.bans), userId) ==>
              o == Raise(NOT_FOUND, "user not found")
    ensures caller.Some? && !IsModerator(old(db.moderators), caller.value.uuidPk) ==>
              o == Raise(BAD_REQUEST, "not implemented")
    ensures o == Null <==>
              caller.Some? && IsModerator(old(db.moderators), caller.value.uuidPk) && IsBanned(old(db.bans), userId)
    ensures o == Null ==> db.Tables() == WithoutBansOf(old(db.Tables()), userId)
    ensures o != Null ==> db.Tables() == old(db.Tables())
  {
    if caller.None? {
      return Abort(MissingCaller);
    }
    var moderator := IsModerator(db.moderators, caller.value.uuidPk);
    var banned := IsBanned(db.bans, userId);
    if !banned && moderator {
      return Raise(NOT_FOUND, "user not found");
    }
    if !banned && !moderator {
      return Raise(BAD_REQUEST, "not implemented");
    }
    if banned && !moderator {
      return Raise(BAD_REQUEST, "not implemented");
    }
    DeleteBansOfConsistent(db.Tables(), userId);
    var next := WithoutBansOf(db.Tables(), userId);
    assert Behind(next, db.serials);
    db.Commit(next, db.serials);
    return Null;
  }

  /**
   * An unban settles one user's status only: afterwards that user is not
   * banned, any other user is banned exactly when they were before, and a
   * second unban of the same user changes nothing.
   */
  lemma UnbanAffectsOnlyUser(t: Tables, userId: string, other: string)
    requires other != userId
    ensures !IsBanned(WithoutBansOf(t, userId).bans, userId)
    ensures IsBanned(WithoutBansOf(t, userId).bans, other) <==> IsBanned(t.bans, other)
    ensures WithoutBansOf(WithoutBansOf(t, userId), userId) == WithoutBansOf(t, userId)
  {
  }
}
