/**
 * The older poll router (api/v1/routes.py). Its request model also carries
 * `updated_at`, its `create_poll` answers 200 rather than 201, and its
 * `update_poll` only stamps the loaded row and never commits.
 */
module LegacyPollRoutes {
  import opened Wrappers
  import opened Http
  import opened Schema
  import opened Store
  import PollRoutes

  /** The `Poll` request model of api/v1/schema.py. */
  datatype LegacyPollBody = LegacyPollBody(title: string, pollType: PollType, createdBy: Option<string>,
                                           updatedAt: Option<int>,
                                           isAddChoicesActive: bool, isVotingActive: bool)

  /** `retrieve_polls`: the same listing as the newer router's, needing no caller. */
  method RetrievePolls(db: Database) returns (o: Outcome<PollRoutes.PollListing>)
    ensures o.Ok?
    ensures o.value.Rows? <==> |db.polls| > 0
    ensures o.value.Rows? ==> o.value.polls == db.polls.Values
    ensures o.value.Message? ==> o.value.text == "No polls available"
  {
    o := PollRoutes.RetrievePolls(db);
  }

  /** The row `create_poll` inserts under `id`, `updated_at` included as sent. */
  function NewLegacyPollRow(id: int, body: LegacyPollBody, username: string, now: int): (p: Poll) {
    NewPoll(id, body.title, body.pollType, username, now,
            Some(body.isAddChoicesActive), Some(body.isVotingActive), body.updatedAt)
  }

  /** `create_poll`: `created_by` is the caller's username whatever the body says. */
  method CreatePoll(db: Database, body: LegacyPollBody, caller: Option<User>, now: int)
    returns (o: Outcome<Poll>)
    requires db.Valid()
    modifies db
    ensures db.Valid()
    ensures caller.None? ==> o == Abort(MissingCaller)
    ensures caller.Some? ==>
              var row := NewLegacyPollRow(old(db.serials.poll) + 1, body, caller.value.username, now);
              match PollFault(old(db.Tables()), row)
              case Some(fault) => o == Abort(fault)
              case None =>
                && o == Ok(StoredPoll(row).value)
                && db.Tables() == old(db.Tables()).(polls := old(db.polls)[row.id := StoredPoll(row).value])
                && db.serials == old(db.serials).(poll := row.id)
    ensures o.Ok? ==> o.value.createdBy == caller.value.username && o.value.updatedAt == body.updatedAt
    ensures !o.Ok? ==> db.Tables() == old(db.Tables()) && db.serials == old(db.serials)
  {
    if caller.None? {
      return Abort(MissingCaller);
    }
    var row := NewLegacyPollRow(db.serials.poll + 1, body, caller.value.username, now);
    var fault := PollFault(db.Tables(), row);
    if fault.Some? {
      return Abort(fault.value);
    }
    var stored := StoredPoll(row).value;
    PutPollConsistent(db.Tables(), row);
    var next := db.Tables().(polls := db.polls[row.id := stored]);
    assert Behind(next, db.serials.(poll := row.id));
    db.Commit(next, db.serials.(poll := row.id));
    return Ok(stored);
  }

  /** `retrieve_poll_by_id`: the same lookup as the newer router's. */
  method RetrievePollById(db: Database, id: int) returns (o: Outcome<Poll>)
    requires db.Valid()
    ensures id !in db.polls ==> o == Raise(NOT_FOUND, "Poll not found")
    ensures id in db.polls ==> o.Ok? && o.value in db.polls.Values && o.value.id == id
  {
    o := PollRoutes.RetrievePollById(db, id);
  }

  /**
   * `update_poll`: 404 before 403 on username ownership. On success it sets
   * `updated_at` on the loaded row only; nothing is committed, so the tables
   * stay as they were, and the handler returns None.
   */
  method UpdatePoll(db: Database, id: int, caller: Option<User>, now: int) returns (o: Outcome<()>)
    requires db.Valid()
    ensures id !in db.polls ==> o == Raise(NOT_FOUND, "Poll not found")
    ensures id in db.polls && caller.None? ==> o == Abort(MissingCaller)
    ensures id in db.polls && caller.Some? && db.polls[id].createdBy != caller.value.username ==>
              o == Raise(FORBIDDEN, "Access denied")
    ensures o == Null <==> id in db.polls && caller.Some? && db.polls[id].createdBy == caller.value.username
  {
    if id !in db.polls {
      return Raise(NOT_FOUND, "Poll not found");
    }
    var loaded := db.polls[id];
    if caller.None? {
      return Abort(MissingCaller);
    }
    if loaded.createdBy != caller.value.username {
      return Raise(FORBIDDEN, "Access denied");
    }
    loaded := loaded.(updatedAt := Some(now));
    return Null;
  }

  /** `delete_poll`: 404, then 403, then the delete with its cascade. */
  method DeletePoll(db: Database, id: int, caller: Option<User>) returns (o: Outcome<()>)
    requires db.Valid()
    modifies db
    ensures db.Valid() && db.serials == old(db.serials)
    ensures id !in old(db.polls) ==> o == Raise(NOT_FOUND, "Poll not found")
    ensures id in old(db.polls) && caller.None? ==> o == Abort(MissingCaller)
    ensures id in old(db.polls) && caller.Some? && old(db.polls[id].createdBy) != caller.value.username ==>
              o == Raise(FORBIDDEN, "Access denied")
    ensures o == Null <==>
              id in old(db.polls) && caller.Some? && old(db.polls[id].createdBy) == caller.value.username
    ensures o == Null ==> db.Tables() == WithoutPoll(old(db.Tables()), id)
    ensures o != Null ==> db.Tables() == old(db.Tables())
  {
    o := PollRoutes.DeletePoll(db, id, caller);
  }
}
