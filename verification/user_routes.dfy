/**
 * The user and moderator handlers (api/v1/users/user_routes.py). Each takes
 * the store, the path and body parameters, and `caller`: what
 * `get_current_user` resolved the request to (None when no user matched).
 */
module UserRoutes {
  import opened Wrappers
  import opened Http
  import opened Schema
  import opened Store
  import OAuth

  /** `UserSchema`. */
  datatype UserBody = UserBody(username: string, email: string, password: string)

  /** `ModeratorSchema`: `mod_user` is meant to be a username. */
  datatype ModeratorBody = ModeratorBody(modFor: string, modUser: string)

  /** `AccessToken`. */
  datatype AccessToken = AccessToken(accessToken: string, tokenType: string)

  // ------------------------------------------------------------------ users

  /** `get_user_by_id`. */
  method GetUserById(db: Database, uuidPk: string, caller: Option<User>) returns (o: Outcome<User>)
    requires db.Valid()
    ensures caller.None? ==> o == Null
    ensures caller.Some? && uuidPk !in db.users ==> o == Raise(NOT_FOUND, "user not found")
    ensures caller.Some? && uuidPk in db.users ==> o.Ok? && o.value in db.users.Values && o.value.uuidPk == uuidPk
  {
    var user := OAuth.FindUser(db.users, uuidPk);
    if caller.Some? {
      if user.None? {
        return Raise(NOT_FOUND, "user not found");
      }
      return Ok(user.value);
    }
    return Null;
  }

  /** The row `update_user` writes: the body's fields as sent, and the new `updated_at`. */
  function EditedUser(u: User, body: UserBody, now: int): (r: User) {
    u.(username := body.username, email := body.email, password := body.password, updatedAt := Some(now))
  }

  /**
   * `update_user` as written: 404 before 403. Past the guards it hands the
   * body's fields to the query's `update` as keyword arguments, where the ORM
   * takes one map of values; the call raises before the commit, so no update
   * is stored.
   */
  method UpdateUserAsWritten(db: Database, uuidPk: string, body: UserBody, caller: Option<User>)
    returns (o: Outcome<User>)
    requires db.Valid()
    ensures uuidPk !in db.users ==> o == Raise(NOT_FOUND, "user not found")
    ensures uuidPk in db.users && caller.None? ==> o == Abort(MissingCaller)
    ensures uuidPk in db.users && caller.Some? && caller.value.uuidPk != uuidPk ==>
              o == Raise(FORBIDDEN, "access denied")
    ensures uuidPk in db.users && caller.Some? && caller.value.uuidPk == uuidPk ==> o == Abort(UpdateKeywords)
    ensures !o.Ok?
  {
    if uuidPk !in db.users {
      return Raise(NOT_FOUND, "user not found");
    }
    if caller.None? {
      return Abort(MissingCaller);
    }
    if db.users[uuidPk].uuidPk != caller.value.uuidPk {
      return Raise(FORBIDDEN, "access denied");
    }
    return Abort(UpdateKeywords);
  }

  /**
   * `update_user` as evidently intended, with the body's fields passed as one
   * map of values: 404 before 403, and the password is stored as sent, not hashed.
   */
  method UpdateUser(db: Database, uuidPk: string, body: UserBody, caller: Option<User>, now: int)
    returns (o: Outcome<User>)
    requires db.Valid()
    modifies db
    ensures db.Valid() && db.serials == old(db.serials)
    ensures uuidPk !in old(db.users) ==> o == Raise(NOT_FOUND, "user not found")
    ensures uuidPk in old(db.users) && caller.None? ==> o == Abort(MissingCaller)
    ensures uuidPk in old(db.users) && caller.Some? && caller.value.uuidPk != uuidPk ==>
              o == Raise(FORBIDDEN, "access denied")
    ensures o.Ok? <==>
              && uuidPk in old(db.users) && caller.Some? && caller.value.uuidPk == uuidPk
              && !UserUpdateRefused(old(db.Tables()), EditedUser(old(db.users[uuidPk]), body, now))
    ensures o.Ok? ==>
              && o.value.uuidPk == uuidPk && o.value.createdAt == old(db.users[uuidPk].createdAt)
              && o.value.username == body.username && o.value.email == body.email
              && o.value.password == body.password && o.value.updatedAt == Some(now)
              && db.Tables() == old(db.Tables()).(users := old(db.users)[uuidPk := o.value])
    ensures !o.Ok? ==> db.Tables() == old(db.Tables())
    ensures o.Ok? || o.Fail?
  {
    if uuidPk !in db.users {
      return Raise(NOT_FOUND, "user not found");
    }
    if caller.None? {
      return Abort(MissingCaller);
    }
    if db.users[uuidPk].uuidPk != caller.value.uuidPk {
      return Raise(FORBIDDEN, "access denied");
    }
    var row := db.users[uuidPk].(updatedAt := Some(now));
    row := row.(username := body.username, email := body.email, password := body.password);
    if UserUpdateRefused(db.Tables(), row) {
      return Abort(IntegrityError);
    }
    UpdateUserConsistent(db.Tables(), row);
    var next := db.Tables().(users := db.users[uuidPk := row]);
    assert Behind(next, db.serials);
    db.Commit(next, db.serials);
    return Ok(row);
  }

  /** `delete_user`: 404 before 403; the delete takes every cascade with it. */
  method DeleteUser(db: Database, uuidPk: string, caller: Option<User>) returns (o: Outcome<()>)
    requires db.Valid()
    modifies db
    ensures db.Valid() && db.serials == old(db.serials)
    ensures uuidPk !in old(db.users) ==> o == Raise(NOT_FOUND, "user not found")
    ensures uuidPk in old(db.users) && caller.None? ==> o == Abort(MissingCaller)
    ensures uuidPk in old(db.users) && caller.Some? && caller.value.uuidPk != uuidPk ==>
              o == Raise(FORBIDDEN, "access denied")
    ensures uuidPk in old(db.users) && caller.Some? && caller.value.uuidPk == uuidPk ==>
              if UserDeleteRefused(old(db.Tables()), uuidPk) then o == Abort(IntegrityError)
              else o == Null && db.Tables() == WithoutUser(old(db.Tables()), uuidPk)
    ensures o != Null ==> db.Tables() == old(db.Tables())
  {
    if uuidPk !in db.users {
      return Raise(NOT_FOUND, "user not found");
    }
    if caller.None? {
      return Abort(MissingCaller);
    }
    if db.users[uuidPk].uuidPk != caller.value.uuidPk {
      return Raise(FORBIDDEN, "access denied");
    }
    if UserDeleteRefused(db.Tables(), uuidPk) {
      return Abort(IntegrityError);
    }
    var t := WithoutUser(db.Tables(), uuidPk);
    DeleteUserConsistent(db.Tables(), uuidPk);
    DeleteUserShrinks(db.Tables(), uuidPk);
    assert Behind(t, db.serials);
    db.Commit(t, db.serials);
    return Null;
  }

  /**
   * `create`: the stored password is `hashPwd` of the one sent. The new key is
   * the database's `gen_random_uuid()`, passed in as `newUuid`; a taken key,
   * username or email makes the commit fail.
   */
  method Create(db: Database, body: UserBody, newUuid: string, now: int, hashPwd: string -> string)
    returns (o: Outcome<User>)
    requires db.Valid()
    modifies db
    ensures db.Valid() && db.serials == old(db.serials)
    ensures o.Created? <==>
              newUuid !in old(db.users) && body.username !in Usernames(old(db.users))
              && body.email !in Emails(old(db.users))
    ensures o.Created? ==>
              && o.value == User(newUuid, body.username, body.email, hashPwd(body.password), now, None)
              && db.Tables() == old(db.Tables()).(users := old(db.users)[newUuid := o.value])
    ensures !o.Created? ==> o == Abort(IntegrityError) && db.Tables() == old(db.Tables())
  {
    var hashed := hashPwd(body.password);
    var row := User(newUuid, body.username, body.email, hashed, now, None);
    if UserInsertRefused(db.Tables(), row) {
      return Abort(IntegrityError);
    }
    InsertUserConsistent(db.Tables(), row);
    var next := db.Tables().(users := db.users[newUuid := row]);
    assert Behind(next, db.serials);
    db.Commit(next, db.serials);
    return Created(row);
  }

  /** The claims `login` puts in a token: the user's id under "id", and the username. */
  function LoginClaims(u: User): (c: OAuth.Claims)
    ensures c.Keys == {"id", OAuth.UsernameKey} && OAuth.SubjectKey !in c
    ensures c["id"] == OAuth.Str(u.uuidPk) && c[OAuth.UsernameKey] == OAuth.Str(u.username)
  {
    map["id" := OAuth.Str(u.uuidPk), "username" := OAuth.Str(u.username)]
  }

  /**
   * `login`: an unknown username and a wrong password give the same 401; a
   * match gets a token over its id and username.
   */
  method Login(db: Database, username: string, password: string,
               verifyPwd: (string, string) -> bool, sign: OAuth.Claims -> string, now: int, weeks: nat)
    returns (o: Outcome<AccessToken>)
    requires db.Valid()
    ensures o.Fail? <==>
              username !in Usernames(db.users) || !verifyPwd(password, UserNamed(db.users, username).value.password)
    ensures o.Fail? ==> o == Raise(UNAUTHORIZED, "Invalid credentials")
    ensures !o.Fail? ==>
              && o.Ok?
              && o.value.tokenType == "bearer"
              && exists k :: k in db.users && db.users[k].username == username &&
                   o.value.accessToken == sign(OAuth.WithExpiry(LoginClaims(db.users[k]), now, weeks))
  {
    var found := UserNamed(db.users, username);
    if found.None? {
      return Raise(UNAUTHORIZED, "Invalid credentials");
    }
    if !verifyPwd(password, found.value.password) {
      return Raise(UNAUTHORIZED, "Invalid credentials");
    }
    var token := OAuth.CreateToken(LoginClaims(found.value), now, weeks, sign);
    return Ok(AccessToken(token, "bearer"));
  }

  /**
   * A token `login` issues is refused by `verify_token`: its claims carry the
   * id under "id", while verification looks for "uuid_pk".
   */
  lemma LoginTokenRefused(u: User, now: int, weeks: nat, sign: OAuth.Claims -> string,
                          decode: string -> Option<OAuth.Claims>)
    requires decode(sign(OAuth.WithExpiry(LoginClaims(u), now, weeks))) ==
             Some(OAuth.WithExpiry(LoginClaims(u), now, weeks))
    ensures OAuth.VerifyToken(sign(OAuth.WithExpiry(LoginClaims(u), now, weeks)), decode) ==
            Failure(OAuth.CredentialsException())
  {
    var claims := OAuth.WithExpiry(LoginClaims(u), now, weeks);
    assert claims.Keys == {"id", "username", OAuth.ExpiryKey};
    assert OAuth.SubjectKey !in claims;
  }

  /** The claims `login` evidently means to sign: the user's id under "uuid_pk", and the username. */
  function CorrectedLoginClaims(u: User): (c: OAuth.Claims) {
    map[OAuth.SubjectKey := OAuth.Str(u.uuidPk), OAuth.UsernameKey := OAuth.Str(u.username)]
  }

  /**
   * With the corrected claims and verification, the token `login` issues for
   * a stored user resolves back to that user's row.
   */
  lemma LoginTokenAccepted(t: Tables, u: User, now: int, weeks: nat, sign: OAuth.Claims -> string,
                           decode: string -> Option<OAuth.Claims>)
    requires Consistent(t) && u.uuidPk in t.users && t.users[u.uuidPk] == u
    requires decode(sign(OAuth.WithExpiry(CorrectedLoginClaims(u), now, weeks))) ==
             Some(OAuth.WithExpiry(CorrectedLoginClaims(u), now, weeks))
    ensures OAuth.VerifyTokenCorrected(sign(OAuth.WithExpiry(CorrectedLoginClaims(u), now, weeks)), decode) ==
            Success(OAuth.TokenData(u.uuidPk, u.username))
    ensures OAuth.GetCurrentUserCorrected(t.users, sign(OAuth.WithExpiry(CorrectedLoginClaims(u), now, weeks)), decode) ==
            Success(Some(u))
  {
    var claims := OAuth.WithExpiry(CorrectedLoginClaims(u), now, weeks);
    assert claims[OAuth.SubjectKey] == OAuth.Str(u.uuidPk);
    assert claims[OAuth.UsernameKey] == OAuth.Str(u.username);
  }

  // ------------------------------------------------------------- moderators

  /** `get_moderator`. */
  method GetModerator(db: Database, id: int, caller: Option<User>) returns (o: Outcome<Moderator>)
    requires db.Valid()
    ensures caller.None? ==> o == Null
    ensures caller.Some? && id !in db.moderators ==> o == Raise(NOT_FOUND, "moderator does not exist")
    ensures caller.Some? && id in db.moderators ==> o.Ok? && o.value in db.moderators.Values && o.value.id == id
  {
    if caller.None? {
      return Null;
    }
    if id !in db.moderators {
      return Raise(NOT_FOUND, "moderator does not exist");
    }
    return Ok(db.moderators[id]);
  }

  /** The row `update_moderator` writes. */
  function EditedModerator(m: Moderator, body: ModeratorBody, now: int): (r: Moderator) {
    m.(modFor := body.modFor, modUser := body.modUser, updatedAt := Some(now))
  }

  /**
   * `update_moderator` as written: 404 before 403. Past the guards it hands
   * the body's fields to the query's `update` as keyword arguments, where the
   * ORM takes one map of values; the call raises before the commit, so no
   * update is stored.
   */
  method UpdateModeratorAsWritten(db: Database, id: int, body: ModeratorBody, caller: Option<User>)
    returns (o: Outcome<Moderator>)
    requires db.Valid()
    ensures id !in db.moderators ==> o == Raise(NOT_FOUND, "moderator does not exist")
    ensures id in db.moderators && caller.None? ==> o == Abort(MissingCaller)
    ensures id in db.moderators && caller.Some? && db.moderators[id].createdBy != caller.value.uuidPk ==>
              o == Raise(FORBIDDEN, "access denied")
    ensures id in db.moderators && caller.Some? && db.moderators[id].createdBy == caller.value.uuidPk ==>
              o == Abort(UpdateKeywords)
    ensures !o.Ok?
  {
    if id !in db.moderators {
      return Raise(NOT_FOUND, "moderator does not exist");
    }
    if caller.None? {
      return Abort(MissingCaller);
    }
    if db.moderators[id].createdBy != caller.value.uuidPk {
      return Raise(FORBIDDEN, "access denied");
    }
    return Abort(UpdateKeywords);
  }

  /**
   * `update_moderator` as evidently intended, with the body's fields passed as
   * one map of values: 404 before 403; only the row's `created_by` may change it.
   */
  method UpdateModerator(db: Database, id: int, body: ModeratorBody, caller: Option<User>, now: int)
    returns (o: Outcome<Moderator>)
    requires db.Valid()
    modifies db
    ensures db.Valid() && db.serials == old(db.serials)
    ensures id !in old(db.moderators) ==> o == Raise(NOT_FOUND, "moderator does not exist")
    ensures id in old(db.moderators) && caller.None? ==> o == Abort(MissingCaller)
    ensures id in old(db.moderators) && caller.Some? && old(db.moderators[id].createdBy) != caller.value.uuidPk ==>
              o == Raise(FORBIDDEN, "access denied")
    ensures id in old(db.moderators) && caller.Some? && old(db.moderators[id].createdBy) == caller.value.uuidPk ==>
              var row := EditedModerator(old(db.moderators[id]), body, now);
              match ModeratorFault(old(db.Tables()), row)
              case Some(fault) => o == Abort(fault)
              case None =>
                o == Ok(StoredModerator(row).value) &&
                db.Tables() == old(db.Tables()).(moderators := old(db.moderators)[id := StoredModerator(row).value])
    ensures !o.Ok? ==> db.Tables() == old(db.Tables())
  {
    if id !in db.moderators {
      return Raise(NOT_FOUND, "moderator does not exist");
    }
    if caller.None? {
      return Abort(MissingCaller);
    }
    if db.moderators[id].createdBy != caller.value.uuidPk {
      return Raise(FORBIDDEN, "access denied");
    }
    var row := db.moderators[id].(updatedAt := Some(now));
    row := row.(modFor := body.modFor, modUser := body.modUser);
    var fault := ModeratorFault(db.Tables(), row);
    if fault.Some? {
      return Abort(fault.value);
    }
    var stored := StoredModerator(row).value;
    PutModeratorConsistent(db.Tables(), row);
    var next := db.Tables().(moderators := db.moderators[id := stored]);
    assert Behind(next, db.serials);
    db.Commit(next, db.serials);
    return Ok(stored);
  }

  /**
   * `delete_moderator`. Its first guard reads `created_by` of the queried row
   * before testing that the row exists, so an absent id fails there instead
   * of reaching a 404.
   */
  method DeleteModerator(db: Database, id: int, caller: Option<User>) returns (o: Outcome<()>)
    requires db.Valid()
    modifies db
    ensures db.Valid() && db.serials == old(db.serials)
    ensures id !in old(db.moderators) ==> o == Abort(MissingRow)
    ensures id in old(db.moderators) && caller.None? ==> o == Abort(MissingCaller)
    ensures id in old(db.moderators) && caller.Some? && old(db.moderators[id].createdBy) != caller.value.uuidPk ==>
              o == Raise(FORBIDDEN, "access denied")
    ensures o == Null <==>
              id in old(db.moderators) && caller.Some? && old(db.moderators[id].createdBy) == caller.value.uuidPk
    ensures o == Null ==> db.Tables() == old(db.Tables()).(moderators := old(db.moderators) - {id})
    ensures o != Null ==> db.Tables() == old(db.Tables())
  {
    if id !in db.moderators {
      return Abort(MissingRow);
    }
    if caller.None? {
      return Abort(MissingCaller);
    }
    if db.moderators[id].createdBy != caller.value.uuidPk {
      return Raise(FORBIDDEN, "access denied");
    }
    DeleteModeratorConsistent(db.Tables(), id);
    var next := db.Tables().(moderators := db.moderators - {id});
    assert Behind(next, db.serials);
    db.Commit(next, db.serials);
    return Null;
  }

  /**
   * `create_moderator` as written: after the user lookup it assigns
   * `created_by` on the request model, which declares no such field, so the
   * assignment raises and nothing is inserted.
   */
  method CreateModeratorAsWritten(db: Database, body: ModeratorBody, caller: Option<User>)
    returns (o: Outcome<Moderator>)
    requires db.Valid()
    ensures caller.None? ==> o == Null
    ensures caller.Some? && body.modUser !in Usernames(db.users) ==> o == Raise(NOT_FOUND, "user not found")
    ensures caller.Some? && body.modUser in Usernames(db.users) ==> o == Abort(UnknownField)
    ensures !o.Created?
  {
    if caller.None? {
      return Null;
    }
    var user := UserNamed(db.users, body.modUser);
    if user.None? {
      return Raise(NOT_FOUND, "user not found");
    }
    return Abort(UnknownField);
  }

  /**
   * `create_moderator` as evidently intended: a user named `mod_user` must
   * exist (404 otherwise); the new row's `created_by` is the caller's id,
   * whatever the body says; `mod_user` is stored as sent.
   */
  method CreateModerator(db: Database, body: ModeratorBody, caller: Option<User>, now: int)
    returns (o: Outcome<Moderator>)
    requires db.Valid()
    modifies db
    ensures db.Valid()
    ensures caller.None? ==> o == Null
    ensures caller.Some? && body.modUser !in Usernames(old(db.users)) ==> o == Raise(NOT_FOUND, "user not found")
    ensures caller.Some? && body.modUser in Usernames(old(db.users)) ==>
              var row := Moderator(old(db.serials.moderator) + 1, body.modFor, body.modUser,
                                   caller.value.uuidPk, now, None);
              match ModeratorFault(old(db.Tables()), row)
              case Some(fault) => o == Abort(fault)
              case None =>
                && o == Created(StoredModerator(row).value)
                && db.Tables() == old(db.Tables()).(moderators := old(db.moderators)[row.id := StoredModerator(row).value])
                && db.serials == old(db.serials).(moderator := row.id)
    ensures !o.Created? ==> db.Tables() == old(db.Tables()) && db.serials == old(db.serials)
  {
    if caller.None? {
      return Null;
    }
    var user := UserNamed(db.users, body.modUser);
    if user.None? {
      return Raise(NOT_FOUND, "user not found");
    }
    var row := Moderator(db.serials.moderator + 1, body.modFor, body.modUser, caller.value.uuidPk, now, None);
    var fault := ModeratorFault(db.Tables(), row);
    if fault.Some? {
      return Abort(fault.value);
    }
    var stored := StoredModerator(row).value;
    PutModeratorConsistent(db.Tables(), row);
    var next := db.Tables().(moderators := db.moderators[row.id := stored]);
    assert Behind(next, db.serials.(moderator := row.id));
    db.Commit(next, db.serials.(moderator := row.id));
    return Created(stored);
  }
}
