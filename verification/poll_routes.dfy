/**
 * The poll handlers (api/v1/polls/poll_routes.py). Ownership of a poll is
 * tested against the caller's username, which is also what `create_poll`
 * writes into `created_by`, a column whose foreign key points at `users.id`.
 */
module PollRoutes {
  import opened Wrappers
  import opened Http
  import opened Schema
  import opened Store

  /** `PollSchema`: `created_by` may be omitted. */
  datatype PollBody = PollBody(title: string, pollType: PollType, createdBy: Option<string>,
                               isAddChoicesActive: bool, isVotingActive: bool)

  /** What `retrieve_polls` returns: every row, or a message when there is none. */
  datatype PollListing = Rows(polls: set<Poll>) | Message(text: string)

  /** `retrieve_polls`: needs no caller. */
  method RetrievePolls(db: Database) returns (o: Outcome<PollListing>)
    ensures o.Ok?
    ensures o.value.Rows? <==> |db.polls| > 0
    ensures o.value.Rows? ==> o.value.polls == db.polls.Values
    ensures o.value.Message? ==> o.value.text == "No polls available"
  {
    if |db.polls| > 0 {
      return Ok(Rows(db.polls.Values));
    }
    return Ok(Message("No polls available"));
  }

  /** The row `create_poll` inserts under `id`: the body, with `created_by` the caller's username. */
  function NewPollRow(id: int, body: PollBody, username: string, now: int): (p: Poll) {
    NewPoll(id, body.title, body.pollType, username, now,
            Some(body.isAddChoicesActive), Some(body.isVotingActive), None)
  }

  /**
   * `create_poll`: `created_by` is the caller's username whatever the body
   * says. The foreign key on `created_by` then accepts the row only when that
   * username is also some user's id.
   */
  method CreatePoll(db: Database, body: PollBody, caller: Option<User>, now: int) returns (o: Outcome<Poll>)
    requires db.Valid()
    modifies db
    ensures db.Valid()
    ensures caller.None? ==> o == Abort(MissingCaller)
    ensures caller.Some? ==>
              var row := NewPollRow(old(db.serials.poll) + 1, body, caller.value.username, now);
              match PollFault(old(db.Tables()), row)
              case Some(fault) => o == Abort(fault)
              case None =>
                && o == Created(StoredPoll(row).value)
                && db.Tables() == old(db.Tables()).(polls := old(db.polls)[row.id := StoredPoll(row).value])
                && db.serials == old(db.serials).(poll := row.id)
    ensures o.Created? ==> o.value.createdBy == caller.value.username && o.value.createdBy in old(db.users)
    ensures !o.Created? ==> db.Tables() == old(db.Tables()) && db.serials == old(db.serials)
  {
    if caller.None? {
      return Abort(MissingCaller);
    }
    var row := NewPollRow(db.serials.poll + 1, body, caller.value.username, now);
    var fault := PollFault(db.Tables(), row);
    if fault.Some? {
      return Abort(fault.value);
    }
    var stored := StoredPoll(row).value;
    PutPollConsistent(db.Tables(), row);
    var next := db.Tables().(polls := db.polls[row.id := stored]);
    assert Behind(next, db.serials.(poll := row.id));
    db.Commit(next, db.serials.(poll := row.id));
    return Created(stored);
  }

  /** `retrieve_poll_by_id`: needs no caller. */
  method RetrievePollById(db: Database, id: int) returns (o: Outcome<Poll>)
    requires db.Valid()
    ensures id !in db.polls ==> o == Raise(NOT_FOUND, "Poll not found")
    ensures id in db.polls ==> o.Ok? && o.value in db.polls.Values && o.value.id == id
  {
    if id !in db.polls {
      return Raise(NOT_FOUND, "Poll not found");
    }
    return Ok(db.polls[id]);
  }

  /**
   * The row `update_poll` writes: every body field, `created_by` included,
   * and the new `updated_at`; None when the body leaves `created_by` out,
   * which the NOT NULL column refuses.
   */
  function EditedPoll(p: Poll, body: PollBody, now: int): (r: Option<Poll>) {
    match body.createdBy
    case None => None
    case Some(owner) =>
      Some(p.(title := body.title, pollType := body.pollType, createdBy := owner,
              isAddChoicesActive := body.isAddChoicesActive, isVotingActive := body.isVotingActive,
              updatedAt := Some(now)))
  }

  /**
   * `update_poll` as written: 404 before 403 on username ownership. Past the
   * guards it hands the body's fields to the query's `update` as keyword
   * arguments, where the ORM takes one map of values; the call raises before
   * the commit, so no update is stored.
   */
  method UpdatePollAsWritten(db: Database, id: int, body: PollBody, caller: Option<User>)
    returns (o: Outcome<Poll>)
    requires db.Valid()
    ensures id !in db.polls ==> o == Raise(NOT_FOUND, "Poll not found")
    ensures id in db.polls && caller.None? ==> o == Abort(MissingCaller)
    ensures id in db.polls && caller.Some? && db.polls[id].createdBy != caller.value.username ==>
              o == Raise(FORBIDDEN, "Access denied")
    ensures id in db.polls && caller.Some? && db.polls[id].createdBy == caller.value.username ==>
              o == Abort(UpdateKeywords)
    ensures !o.Ok?
  {
    if id !in db.polls {
      return Raise(NOT_FOUND, "Poll not found");
    }
    if caller.None? {
      return Abort(MissingCaller);
    }
    if db.polls[id].createdBy != caller.value.username {
      return Raise(FORBIDDEN, "Access denied");
    }
    return Abort(UpdateKeywords);
  }

  /**
   * `update_poll` as evidently intended, with the body's fields passed as one
   * map of values: 404 before 403; a refused write changes nothing.
   */
  method UpdatePoll(db: Database, id: int, body: PollBody, caller: Option<User>, now: int)
    returns (o: Outcome<Poll>)
    requires db.Valid()
    modifies db
    ensures db.Valid() && db.serials == old(db.serials)
    ensures id !in old(db.polls) ==> o == Raise(NOT_FOUND, "Poll not found")
    ensures id in old(db.polls) && caller.None? ==> o == Abort(MissingCaller)
    ensures id in old(db.polls) && caller.Some? && old(db.polls[id].createdBy) != caller.value.username ==>
              o == Raise(FORBIDDEN, "Access denied")
    ensures id in old(db.polls) && caller.Some? && old(db.polls[id].createdBy) == caller.value.username ==>
              match EditedPoll(old(db.polls[id]), body, now)
              case None => o == Abort(IntegrityError)
              case Some(row) =>
                if PollFault(old(db.Tables()), row).Some? then o == Abort(PollFault(old(db.Tables()), row).value)
                else o == Ok(StoredPoll(row).value) && db.Tables() == old(db.Tables()).(polls := old(db.polls)[id := StoredPoll(row).value])
    ensures o.Ok? ==> o.value.updatedAt == Some(now) && o.value.createdBy == body.createdBy.value
    ensures !o.Ok? ==> db.Tables() == old(db.Tables())
  {
    if id !in db.polls {
      return Raise(NOT_FOUND, "Poll not found");
    }
    if caller.None? {
      return Abort(MissingCaller);
    }
    if db.polls[id].createdBy != caller.value.username {
      return Raise(FORBIDDEN, "Access denied");
    }
    var row := EditedPoll(db.polls[id], body, now);
    if row.None? {
      return Abort(IntegrityError);
    }
    var fault := PollFault(db.Tables(), row.value);
    if fault.Some? {
      return Abort(fault.value);
    }
    var stored := StoredPoll(row.value).value;
    PutPollConsistent(db.Tables(), row.value);
    var next := db.Tables().(polls := db.polls[id := stored]);
    assert Behind(next, db.serials);
    db.Commit(next, db.serials);
    return Ok(stored);
  }

  /** `delete_poll`: 404 before 403; the poll goes with its choices and their votes. */
  method DeletePoll(db: Database, id: int, caller: Option<User>) returns (o: Outcome<()>)
    requires db.Valid()
    modifies db
    ensures db.Valid() && db.serials == old(db.serials)
    ensures id !in old(db.polls) ==> o == Raise(NOT_FOUND, "Poll not found")
    ensures id in old(db.polls) && caller.None? ==> o == Abort(MissingCaller)
    ensures id in old(db.polls) && caller.Some? && old(db.polls[id].createdBy) != caller.value.username ==>
              o == Raise(FORBIDDEN, "Access denied")
    ensures o == Null <==>
              id in old(db.polls) && caller.Some? && old(db.polls[id].createdBy) == caller.value.username
    ensures o == Null ==> db.Tables() == WithoutPoll(old(db.Tables()), id)
    ensures o != Null ==> db.Tables() == old(db.Tables())
  {
    if id !in db.polls {
      return Raise(NOT_FOUND, "Poll not found");
    }
    if caller.None? {
      return Abort(MissingCaller);
    }
    if db.polls[id].createdBy != caller.value.username {
      return Raise(FORBIDDEN, "Access denied");
    }
    var t := WithoutPoll(db.Tables(), id);
    DeletePollConsistent(db.Tables(), id);
    assert Behind(t, db.serials);
    db.Commit(t, db.serials);
    return Null;
  }
}
