/**
 * The choice handlers (api/v1/choices/choice_route.py). Ownership of a
 * choice is tested against the caller's id. The update and delete guards
 * read `created_by` of the queried row before testing that it exists.
 */
module ChoiceRoutes {
  import opened Wrappers
  import opened Http
  import opened Schema
  import opened Store

  /** `ChoiceSchema`: `created_by` may be omitted. */
  datatype ChoiceBody = ChoiceBody(pollId: int, text: string, image: string, createdBy: Option<string>)

  /** `get_choice_by_id`. */
  method GetChoiceById(db: Database, id: int, caller: Option<User>) returns (o: Outcome<Choice>)
    requires db.Valid()
    ensures caller.None? ==> o == Null
    ensures caller.Some? && id !in db.choices ==> o == Raise(NOT_FOUND, "choice not found")
    ensures caller.Some? && id in db.choices ==> o.Ok? && o.value in db.choices.Values && o.value.id == id
  {
    if caller.None? {
      return Null;
    }
    if id in db.choices {
      return Ok(db.choices[id]);
    }
    return Raise(NOT_FOUND, "choice not found");
  }

  /**
   * The row `update_choice` writes: every body field and the new
   * `updated_at`; None when the body leaves `created_by` out, which the
   * NOT NULL column refuses.
   */
  function EditedChoice(c: Choice, body: ChoiceBody, now: int): (r: Option<Choice>) {
    match body.createdBy
    case None => None
    case Some(owner) =>
      Some(c.(pollId := body.pollId, txt := body.text, image := body.image, createdBy := owner,
              updatedAt := Some(now)))
  }

  /**
   * `update_choice` as written: an absent id fails on the first guard and a
   * present one needs its creator. Past the guards it hands the body's fields
   * to the query's `update` as keyword arguments, where the ORM takes one map
   * of values; the call raises before the commit, so no update is stored.
   */
  method UpdateChoiceAsWritten(db: Database, id: int, body: ChoiceBody, caller: Option<User>)
    returns (o: Outcome<Choice>)
    requires db.Valid()
    ensures id !in db.choices ==> o == Abort(MissingRow)
    ensures id in db.choices && caller.None? ==> o == Abort(MissingCaller)
    ensures id in db.choices && caller.Some? && db.choices[id].createdBy != caller.value.uuidPk ==>
              o == Raise(FORBIDDEN, "access denied")
    ensures id in db.choices && caller.Some? && db.choices[id].createdBy == caller.value.uuidPk ==>
              o == Abort(UpdateKeywords)
    ensures !o.Ok?
  {
    if id !in db.choices {
      return Abort(MissingRow);
    }
    if caller.None? {
      return Abort(MissingCaller);
    }
    if db.choices[id].createdBy != caller.value.uuidPk {
      return Raise(FORBIDDEN, "access denied");
    }
    return Abort(UpdateKeywords);
  }

  /** `update_choice` as evidently intended, with the body's fields passed as one map of values. */
  method UpdateChoice(db: Database, id: int, body: ChoiceBody, caller: Option<User>, now: int)
    returns (o: Outcome<Choice>)
    requires db.Valid()
    modifies db
    ensures db.Valid() && db.serials == old(db.serials)
    ensures id !in old(db.choices) ==> o == Abort(MissingRow)
    ensures id in old(db.choices) && caller.None? ==> o == Abort(MissingCaller)
    ensures id in old(db.choices) && caller.Some? && old(db.choices[id].createdBy) != caller.value.uuidPk ==>
              o == Raise(FORBIDDEN, "access denied")
    ensures id in old(db.choices) && caller.Some? && old(db.choices[id].createdBy) == caller.value.uuidPk ==>
              match EditedChoice(old(db.choices[id]), body, now)
              case None => o == Abort(IntegrityError)
              case Some(row) =>
                if ChoiceFault(old(db.Tables()), row).Some? then o == Abort(ChoiceFault(old(db.Tables()), row).value)
                else o == Ok(StoredChoice(row).value) && db.Tables() == old(db.Tables()).(choices := old(db.choices)[id := StoredChoice(row).value])
    ensures o.Ok? ==> o.value.updatedAt == Some(now) && o.value.pollId == body.pollId
    ensures !o.Ok? ==> db.Tables() == old(db.Tables())
  {
    if id !in db.choices {
      return Abort(MissingRow);
    }
    if caller.None? {
      return Abort(MissingCaller);
    }
    if db.choices[id].createdBy != caller.value.uuidPk {
      return Raise(FORBIDDEN, "access denied");
    }
    var t := db.Tables();
    var row := EditedChoice(t.choices[id], body, now);
    if row.None? {
      return Abort(IntegrityError);
    }
    var fault := ChoiceFault(t, row.value);
    if fault.Some? {
      return Abort(fault.value);
    }
    var stored := StoredChoice(row.value).value;
    PutChoiceConsistent(t, row.value);
    var next := t.(choices := t.choices[id := stored]);
    assert Behind(next, db.serials);
    db.Commit(next, db.serials);
    return Ok(stored);
  }

  /** `delete_choice`: the choice goes with the votes on it. */
  method DeleteChoice(db: Database, id: int, caller: Option<User>) returns (o: Outcome<()>)
    requires db.Valid()
    modifies db
    ensures db.Valid() && db.serials == old(db.serials)
    ensures id !in old(db.choices) ==> o == Abort(MissingRow)
    ensures id in old(db.choices) && caller.None? ==> o == Abort(MissingCaller)
    ensures id in old(db.choices) && caller.Some? && old(db.choices[id].createdBy) != caller.value.uuidPk ==>
              o == Raise(FORBIDDEN, "access denied")
    ensures o == Null <==>
              id in old(db.choices) && caller.Some? && old(db.choices[id].createdBy) == caller.value.uuidPk
    ensures o == Null ==> db.Tables() == WithoutChoice(old(db.Tables()), id)
    ensures o != Null ==> db.Tables() == old(db.Tables())
  {
    if id !in db.choices {
      return Abort(MissingRow);
    }
    if caller.None? {
      return Abort(MissingCaller);
    }
    if db.choices[id].createdBy != caller.value.uuidPk {
      return Raise(FORBIDDEN, "access denied");
    }
    var t := WithoutChoice(db.Tables(), id);
    DeleteChoiceConsistent(db.Tables(), id);
    assert Behind(t, db.serials);
    db.Commit(t, db.serials);
    return Null;
  }

  /**
   * `create_choice` as written: the record is built from the request's field
   * names, and `text` is the column's name, not the attribute's (`txt`), so
   * the record constructor refuses it and nothing is inserted.
   */
  method CreateChoiceAsWritten(db: Database, body: ChoiceBody, caller: Option<User>) returns (o: Outcome<Choice>)
    requires db.Valid()
    ensures caller.None? ==> o == Null
    ensures caller.Some? ==> o == Abort(InvalidKeyword)
    ensures !o.Created?
  {
    if caller.None? {
      return Null;
    }
    return Abort(InvalidKeyword);
  }

  /** The row the intended `create_choice` inserts under `id`. */
  function NewChoiceRow(id: int, body: ChoiceBody, owner: string, now: int): (c: Choice) {
    Choice(id, body.pollId, body.text, body.image, owner, now, None)
  }

  /**
   * `create_choice` as evidently intended, with `text` stored in `txt`:
   * `created_by` is the caller's id whatever the body says. Neither of the
   * poll's flags is consulted; only the foreign keys and the column widths
   * can refuse the row.
   */
  method CreateChoice(db: Database, body: ChoiceBody, caller: Option<User>, now: int) returns (o: Outcome<Choice>)
    requires db.Valid()
    modifies db
    ensures db.Valid()
    ensures caller.None? ==> o == Null
    ensures caller.Some? ==>
              var row := NewChoiceRow(old(db.serials.choice) + 1, body, caller.value.uuidPk, now);
              match ChoiceFault(old(db.Tables()), row)
              case Some(fault) => o == Abort(fault)
              case None =>
                && o == Created(StoredChoice(row).value)
                && db.Tables() == old(db.Tables()).(choices := old(db.choices)[row.id := StoredChoice(row).value])
                && db.serials == old(db.serials).(choice := row.id)
    ensures o.Created? ==> o.value.createdBy == caller.value.uuidPk && body.pollId in old(db.polls)
    ensures !o.Created? ==> db.Tables() == old(db.Tables()) && db.serials == old(db.serials)
  {
    if caller.None? {
      return Null;
    }
    var row := NewChoiceRow(db.serials.choice + 1, body, caller.value.uuidPk, now);
    var fault := ChoiceFault(db.Tables(), row);
    if fault.Some? {
      return Abort(fault.value);
    }
    var stored := StoredChoice(row).value;
    PutChoiceConsistent(db.Tables(), row);
    var next := db.Tables().(choices := db.choices[row.id := stored]);
    assert Behind(next, db.serials.(choice := row.id));
    db.Commit(next, db.serials.(choice := row.id));
    return Created(stored);
  }
}
