/**
 * The vote handlers (api/v1/votes/vote_routes.py). `create_vote` inserts
 * whatever the foreign keys accept: it does not look at the poll's voting
 * flag, at bans, or at the caller's earlier votes.
 */
module VoteRoutes {
  import opened Wrappers
  import opened Http
  import opened Schema
  import opened Store

  /** `VoteSchema`: `user` may be omitted. */
  datatype VoteBody = VoteBody(user: Option<string>, choiceId: int)

  /** `get_vote`. */
  method GetVote(db: Database, id: int, caller: Option<User>) returns (o: Outcome<Vote>)
    requires db.Valid()
    ensures caller.None? ==> o == Null
    ensures caller.Some? && id !in db.votes ==> o == Raise(NOT_FOUND, "vote not found")
    ensures caller.Some? && id in db.votes ==> o.Ok? && o.value in db.votes.Values && o.value.id == id
  {
    if caller.None? {
      return Null;
    }
    if id in db.votes {
      return Ok(db.votes[id]);
    }
    return Raise(NOT_FOUND, "vote not found");
  }

  /**
   * `delete_vote`. Its first guard reads `user` of the queried row before
   * testing that the row exists, so an absent id fails there.
   */
  method DeleteVote(db: Database, id: int, caller: Option<User>) returns (o: Outcome<()>)
    requires db.Valid()
    modifies db
    ensures db.Valid() && db.serials == old(db.serials)
    ensures id !in old(db.votes) ==> o == Abort(MissingRow)
    ensures id in old(db.votes) && caller.None? ==> o == Abort(MissingCaller)
    ensures id in old(db.votes) && caller.Some? && old(db.votes[id].user) != caller.value.uuidPk ==>
              o == Raise(FORBIDDEN, "access denied")
    ensures o == Null <==> id in old(db.votes) && caller.Some? && old(db.votes[id].user) == caller.value.uuidPk
    ensures o == Null ==> db.Tables() == old(db.Tables()).(votes := old(db.votes) - {id})
    ensures o != Null ==> db.Tables() == old(db.Tables())
  {
    if id !in db.votes {
      return Abort(MissingRow);
    }
    if caller.None? {
      return Abort(MissingCaller);
    }
    if db.votes[id].user != caller.value.uuidPk {
      return Raise(FORBIDDEN, "access denied");
    }
    DeleteVoteConsistent(db.Tables(), id);
    var next := db.Tables().(votes := db.votes - {id});
    assert Behind(next, db.serials);
    db.Commit(next, db.serials);
    return Null;
  }

  /** What decides whether `create_vote` stores a vote: only the two foreign keys. */
  predicate VoteAccepted(t: Tables, voter: string, choiceId: int) {
    voter in t.users && choiceId in t.choices
  }

  /** `create_vote`: `user` is the caller's id whatever the body says. */
  method CreateVote(db: Database, body: VoteBody, caller: Option<User>, now: int) returns (o: Outcome<Vote>)
    requires db.Valid()
    modifies db
    ensures db.Valid()
    ensures caller.None? ==> o == Null
    ensures o.Created? <==> caller.Some? && VoteAccepted(old(db.Tables()), caller.value.uuidPk, body.choiceId)
    ensures caller.Some? && !o.Created? ==> o == Abort(IntegrityError)
    ensures o.Created? ==>
              && o.value == Vote(old(db.serials.vote) + 1, caller.value.uuidPk, body.choiceId, now)
              && db.Tables() == old(db.Tables()).(votes := old(db.votes)[o.value.id := o.value])
              && db.serials == old(db.serials).(vote := o.value.id)
    ensures !o.Created? ==> db.Tables() == old(db.Tables()) && db.serials == old(db.serials)
  {
    if caller.None? {
      return Null;
    }
    var row := Vote(db.serials.vote + 1, caller.value.uuidPk, body.choiceId, now);
    if VoteFault(db.Tables(), row).Some? {
      return Abort(IntegrityError);
    }
    PutVoteConsistent(db.Tables(), row);
    var next := db.Tables().(votes := db.votes[row.id := row]);
    assert Behind(next, db.serials.(vote := row.id));
    db.Commit(next, db.serials.(vote := row.id));
    return Created(row);
  }

  /**
   * Any user who has voted may vote again on the same choice, even when the
   * poll's voting flag is off and a ban names the voter for that poll's owner.
   */
  lemma RepeatVoteAccepted(t: Tables, v: int)
    requires Consistent(t) && v in t.votes
    ensures VoteAccepted(t, t.votes[v].user, t.votes[v].choiceId)
  {
  }
}
