/**
 * The relational schema of the poll backend (api/v1/models.py): one record
 * per table, the column rules (String widths, the poll type enum, defaults)
 * and the integrity rules the database enforces on every write (primary keys,
 * unique columns, foreign keys). Deletes are modelled together with the
 * ON DELETE CASCADE rules of the foreign keys.
 */
module Schema {
  import opened Wrappers
  import opened Http

  // Widths of the bounded String columns.
  const PollTitleWidth := 150
  const ChoiceTextWidth := 50
  const ChoiceImageWidth := 250
  const ModForWidth := 150

  /** The `poll_type_enum` column type. */
  datatype PollType = Text | Image

  /** The label the enum column stores for each poll type. */
  function PollTypeLabel(t: PollType): (s: string)
    ensures s == "text" || s == "image"
  {
    match t
    case Text => "text"
    case Image => "image"
  }

  /** The enum column accepts exactly its two labels. */
  function ParsePollType(s: string): (r: Option<PollType>)
    ensures r.Some? <==> (s == "text" || s == "image")
  {
    if s == "text" then Some(Text) else if s == "image" then Some(Image) else None
  }

  lemma PollTypeRoundTrip(t: PollType, s: string)
    ensures ParsePollType(PollTypeLabel(t)) == Some(t)
    ensures ParsePollType(s).Some? ==> PollTypeLabel(ParsePollType(s).value) == s
  {
  }

  // One record per table. Timestamps are integer seconds; a NULL timestamp is None.

  datatype User = User(uuidPk: string, username: string, email: string, password: string,
                       createdAt: int, updatedAt: Option<int>)

  datatype Poll = Poll(id: int, title: string, pollType: PollType, createdBy: string,
                       createdAt: int, updatedAt: Option<int>,
                       isAddChoicesActive: bool, isVotingActive: bool)

  datatype Choice = Choice(id: int, pollId: int, txt: string, image: string, createdBy: string,
                           createdAt: int, updatedAt: Option<int>)

  datatype Vote = Vote(id: int, user: string, choiceId: int, createdAt: int)

  datatype Moderator = Moderator(id: int, modFor: string, modUser: string, createdBy: string,
                                 createdAt: int, updatedAt: Option<int>)

  datatype Ban = Ban(id: int, pollOwnerId: string, bannedBy: string, userId: string, createdAt: int)

  /** The six tables, `users` keyed by `uuid_pk`, the others by their integer id. */
  datatype Tables = Tables(users: map<string, User>, polls: map<int, Poll>, choices: map<int, Choice>,
                           votes: map<int, Vote>, moderators: map<int, Moderator>, bans: map<int, Ban>)

  const EmptyTables := Tables(map[], map[], map[], map[], map[], map[])

  /**
   * A new `polls` row. The two flags take the column default (false) when the
   * insert leaves them out; `updated_at` has no server default.
   */
  function NewPoll(id: int, title: string, pollType: PollType, createdBy: string, now: int,
                   addChoices: Option<bool>, voting: Option<bool>, updatedAt: Option<int>): (p: Poll)
    ensures addChoices.None? ==> !p.isAddChoicesActive
    ensures voting.None? ==> !p.isVotingActive
    ensures addChoices.Some? ==> p.isAddChoicesActive == addChoices.value
    ensures voting.Some? ==> p.isVotingActive == voting.value
    ensures p.createdAt == now && p.createdBy == createdBy
  {
    Poll(id, title, pollType, createdBy, now, updatedAt, addChoices.GetOr(false), voting.GetOr(false))
  }

  function Usernames(users: map<string, User>): (names: set<string>) {
    set k | k in users :: users[k].username
  }

  function Emails(users: map<string, User>): (emails: set<string>) {
    set k | k in users :: users[k].email
  }

  /** The user whose username is `name`, if any; usernames are unique, so the first is the only one. */
  function UserNamed(users: map<string, User>, name: string): (r: Option<User>)
    requires UniqueUserFields(users)
    ensures r.Some? <==> name in Usernames(users)
    ensures r.Some? ==> r.value in users.Values && r.value.username == name
  {
    if name in Usernames(users) then
      var k :| k in users && users[k].username == name; Some(users[k])
    else None
  }

  // ---------------------------------------------------------------- integrity

  /** Every row sits under its own primary key. */
  ghost predicate KeysMatch(t: Tables) {
    && (forall k :: k in t.users ==> t.users[k].uuidPk == k)
    && (forall k :: k in t.polls ==> t.polls[k].id == k)
    && (forall k :: k in t.choices ==> t.choices[k].id == k)
    && (forall k :: k in t.votes ==> t.votes[k].id == k)
    && (forall k :: k in t.moderators ==> t.moderators[k].id == k)
    && (forall k :: k in t.bans ==> t.bans[k].id == k)
  }

  /** The unique constraints on `users.username` and `users.email`. */
  ghost predicate UniqueUserFields(users: map<string, User>) {
    forall a, b :: a in users && b in users && a != b ==>
      users[a].username != users[b].username && users[a].email != users[b].email
  }

  /** Every foreign key names an existing row. */
  ghost predicate References(t: Tables) {
    && (forall p :: p in t.polls ==> t.polls[p].createdBy in t.users)
    && (forall c :: c in t.choices ==> t.choices[c].pollId in t.polls && t.choices[c].createdBy in t.users)
    && (forall v :: v in t.votes ==> t.votes[v].user in t.users && t.votes[v].choiceId in t.choices)
    && (forall m :: m in t.moderators ==>
          t.moderators[m].modUser in t.users && t.moderators[m].createdBy in t.users)
    && (forall b :: b in t.bans ==>
          && t.bans[b].pollOwnerId in t.users
          && t.bans[b].userId in t.users
          && t.bans[b].bannedBy in Usernames(t.users))
  }

  /** Every bounded string fits its column. */
  ghost predicate Widths(t: Tables) {
    && (forall p :: p in t.polls ==> |t.polls[p].title| <= PollTitleWidth)
    && (forall c :: c in t.choices ==>
          |t.choices[c].txt| <= ChoiceTextWidth && |t.choices[c].image| <= ChoiceImageWidth)
    && (forall m :: m in t.moderators ==> |t.moderators[m].modFor| <= ModForWidth)
  }

  /** What the database guarantees of its committed state. */
  ghost predicate Consistent(t: Tables) {
    KeysMatch(t) && UniqueUserFields(t.users) && References(t) && Widths(t)
  }

  // ------------------------------------------------- write checks, per table

  /** Why inserting user `u` fails: a taken primary key, username or email. */
  predicate UserInsertRefused(t: Tables, u: User)
    ensures u.uuidPk in t.users ==> UserInsertRefused(t, u)
    ensures UserInsertRefused(t, u) ==>
              exists k :: k in t.users &&
                (k == u.uuidPk || t.users[k].username == u.username || t.users[k].email == u.email)
  {
    u.uuidPk in t.users || u.username in Usernames(t.users) || u.email in Emails(t.users)
  }

  /**
   * Why overwriting the user row at `u.uuidPk` with `u` fails: another user
   * holds the username or email, or the username changes while a ban still
   * names the old one (`ban.banned_by` has no ON UPDATE rule).
   */
  predicate UserUpdateRefused(t: Tables, u: User)
    requires u.uuidPk in t.users
    ensures UniqueUserFields(t.users) && u == t.users[u.uuidPk] ==> !UserUpdateRefused(t, u)
  {
    || (exists k :: k in t.users && k != u.uuidPk &&
          (t.users[k].username == u.username || t.users[k].email == u.email))
    || (u.username != t.users[u.uuidPk].username &&
          exists b :: b in t.bans && t.bans[b].bannedBy == t.users[u.uuidPk].username)
  }

  // ------------------------------------------------------ bounded String columns

  /**
   * The value a `VARCHAR(n)` column keeps for `s`, or None when PostgreSQL
   * refuses it as too long. A longer string is accepted only when every
   * character past the n-th is a space, and it is then cut to n characters.
   */
  function FitColumn(s: string, n: nat): (r: Option<string>)
    ensures r.Some? <==> forall i :: n <= i < |s| ==> s[i] == ' '
    ensures r.Some? ==> r.value <= s && |r.value| == (if |s| <= n then |s| else n)
    ensures r.Some? ==> forall i :: |r.value| <= i < |s| ==> s[i] == ' '
  {
    if |s| <= n then Some(s)
    else if forall i :: n <= i < |s| ==> s[i] == ' ' then Some(s[..n])
    else None
  }

  /** A title one space longer than its column is kept without the space, not refused. */
  lemma TrailingSpaceCut(s: string)
    requires |s| == PollTitleWidth
    ensures FitColumn(s + " ", PollTitleWidth) == Some(s)
  {
  }

  /** Storing a kept value again keeps it as it is. */
  lemma FitColumnIdempotent(s: string, n: nat)
    requires FitColumn(s, n).Some?
    ensures FitColumn(FitColumn(s, n).value, n) == FitColumn(s, n)
  {
  }

  /** The row the `polls` table keeps for `p`, its title fitted to the column; None when the title is refused. */
  function StoredPoll(p: Poll): (r: Option<Poll>)
    ensures r.Some? <==> FitColumn(p.title, PollTitleWidth).Some?
    ensures r.Some? ==> r.value.(title := p.title) == p && |r.value.title| <= PollTitleWidth
  {
    match FitColumn(p.title, PollTitleWidth)
    case None => None
    case Some(title) => Some(p.(title := title))
  }

  /** The row the `choices` table keeps for `c`, its text and image fitted; None when either is refused. */
  function StoredChoice(c: Choice): (r: Option<Choice>)
    ensures r.Some? <==> FitColumn(c.txt, ChoiceTextWidth).Some? && FitColumn(c.image, ChoiceImageWidth).Some?
    ensures r.Some? ==>
              && r.value.(txt := c.txt, image := c.image) == c
              && |r.value.txt| <= ChoiceTextWidth && |r.value.image| <= ChoiceImageWidth
  {
    match (FitColumn(c.txt, ChoiceTextWidth), FitColumn(c.image, ChoiceImageWidth))
    case (Some(txt), Some(image)) => Some(c.(txt := txt, image := image))
    case _ => None
  }

  /** The row the `moderators` table keeps for `m`, its `mod_for` fitted; None when it is refused. */
  function StoredModerator(m: Moderator): (r: Option<Moderator>)
    ensures r.Some? <==> FitColumn(m.modFor, ModForWidth).Some?
    ensures r.Some? ==> r.value.(modFor := m.modFor) == m && |r.value.modFor| <= ModForWidth
  {
    match FitColumn(m.modFor, ModForWidth)
    case None => None
    case Some(modFor) => Some(m.(modFor := modFor))
  }

  /**
   * Why writing poll `p` fails: a title refused by its column (DataError),
   * then a `created_by` that names no user. Where that value is not UUID text
   * at all (the handlers write a username there) PostgreSQL refuses it as
   * invalid input, a DataError, rather than as a missing key. Either way the
   * request ends in an uncaught error and no change, so the model reports
   * both as IntegrityError.
   */
  function PollFault(t: Tables, p: Poll): (r: Option<Fault>)
    ensures r == Some(DataError) <==> exists i :: PollTitleWidth <= i < |p.title| && p.title[i] != ' '
    ensures r.Some? ==> r.value in {DataError, IntegrityError}
    ensures r.None? ==> StoredPoll(p).Some?
  {
    if StoredPoll(p).None? then Some(DataError)
    else if p.createdBy !in t.users then Some(IntegrityError)
    else None
  }

  /** Why writing choice `c` fails: a text or image refused by its column, then a missing poll or creator. */
  function ChoiceFault(t: Tables, c: Choice): (r: Option<Fault>)
    ensures r == Some(DataError) <==>
              || (exists i :: ChoiceTextWidth <= i < |c.txt| && c.txt[i] != ' ')
              || (exists i :: ChoiceImageWidth <= i < |c.image| && c.image[i] != ' ')
    ensures r.Some? ==> r.value in {DataError, IntegrityError}
    ensures r.None? ==> StoredChoice(c).Some?
  {
    if StoredChoice(c).None? then Some(DataError)
    else if c.pollId !in t.polls || c.createdBy !in t.users then Some(IntegrityError)
    else None
  }

  /** Why writing vote `v` fails: a missing voter or choice. */
  function VoteFault(t: Tables, v: Vote): (r: Option<Fault>)
    ensures r.Some? ==> r.value == IntegrityError
    ensures r.None? <==> v.user in t.users && v.choiceId in t.choices
  {
    if v.user !in t.users || v.choiceId !in t.choices then Some(IntegrityError) else None
  }

  /**
   * Why writing moderator row `m` fails. As for `PollFault`, a `mod_user`
   * that is a username rather than UUID text is refused as invalid input
   * rather than as a missing key; the model reports both as IntegrityError.
   */
  function ModeratorFault(t: Tables, m: Moderator): (r: Option<Fault>)
    ensures r == Some(DataError) <==> exists i :: ModForWidth <= i < |m.modFor| && m.modFor[i] != ' '
    ensures r.Some? ==> r.value in {DataError, IntegrityError}
    ensures r.None? ==> StoredModerator(m).Some?
  {
    if StoredModerator(m).None? then Some(DataError)
    else if m.modUser !in t.users || m.createdBy !in t.users then Some(IntegrityError)
    else None
  }

  /** Why writing ban `b` fails: a missing owner or banned user, or an issuer no user is named. */
  function BanFault(t: Tables, b: Ban): (r: Option<Fault>)
    ensures r.Some? ==> r.value == IntegrityError
    ensures r.None? <==>
              && b.pollOwnerId in t.users && b.userId in t.users
              && exists k :: k in t.users && t.users[k].username == b.bannedBy
  {
    if b.pollOwnerId !in t.users || b.userId !in t.users || b.bannedBy !in Usernames(t.users)
    then Some(IntegrityError)
    else None
  }

  // ------------------------------------------------------- deletes and cascades

  /** Every row of `r` is a row of `t`, unchanged: deleting removes rows and rewrites none. */
  ghost predicate RowsKept(r: Tables, t: Tables) {
    && (forall k :: k in r.users ==> k in t.users && r.users[k] == t.users[k])
    && (forall k :: k in r.polls ==> k in t.polls && r.polls[k] == t.polls[k])
    && (forall k :: k in r.choices ==> k in t.choices && r.choices[k] == t.choices[k])
    && (forall k :: k in r.votes ==> k in t.votes && r.votes[k] == t.votes[k])
    && (forall k :: k in r.moderators ==> k in t.moderators && r.moderators[k] == t.moderators[k])
    && (forall k :: k in r.bans ==> k in t.bans && r.bans[k] == t.bans[k])
  }

  /**
   * DELETE of one poll: its choices go with it, and the votes on those choices.
   * No remaining choice belongs to the poll and no remaining vote is on a
   * removed choice; every other row stays.
   */
  function WithoutPoll(t: Tables, id: int): (r: Tables)
    ensures RowsKept(r, t)
    ensures r.users == t.users && r.moderators == t.moderators && r.bans == t.bans
    ensures r.polls == t.polls - {id}
    ensures forall c :: c in r.choices ==> r.choices[c].pollId != id
    ensures forall c :: c in t.choices && t.choices[c].pollId != id ==> c in r.choices
    ensures forall v :: v in r.votes ==> r.votes[v].choiceId in r.choices
    ensures forall v :: v in t.votes && t.votes[v].choiceId in r.choices ==> v in r.votes
  {
    var choices := map c | c in t.choices && t.choices[c].pollId != id :: t.choices[c];
    t.(polls := t.polls - {id},
       choices := choices,
       votes := map v | v in t.votes && t.votes[v].choiceId in choices :: t.votes[v])
  }

  /** DELETE of one choice: the votes on it go with it, and every other row stays. */
  function WithoutChoice(t: Tables, id: int): (r: Tables)
    ensures RowsKept(r, t)
    ensures r.users == t.users && r.polls == t.polls && r.moderators == t.moderators && r.bans == t.bans
    ensures r.choices == t.choices - {id}
    ensures forall v :: v in r.votes ==> r.votes[v].choiceId != id
    ensures forall v :: v in t.votes && t.votes[v].choiceId != id ==> v in r.votes
  {
    t.(choices := t.choices - {id},
       votes := map v | v in t.votes && t.votes[v].choiceId != id :: t.votes[v])
  }

  /** DELETE of every ban row naming `userId` as the banned user; every other row stays. */
  function WithoutBansOf(t: Tables, userId: string): (r: Tables)
    ensures RowsKept(r, t)
    ensures r.(bans := t.bans) == t
    ensures forall b :: b in r.bans ==> r.bans[b].userId != userId
    ensures forall b :: b in t.bans && t.bans[b].userId != userId ==> b in r.bans
  {
    t.(bans := map b | b in t.bans && t.bans[b].userId != userId :: t.bans[b])
  }

  /**
   * `moderators.mod_user` references the user with no ON DELETE rule: the
   * delete of user `uid` is refused while a moderator row that the cascade
   * does not remove still names it.
   */
  predicate UserDeleteRefused(t: Tables, uid: string)
    ensures Consistent(t) && UserDeleteRefused(t, uid) ==> uid in t.users
  {
    exists m :: m in t.moderators && t.moderators[m].modUser == uid && t.moderators[m].createdBy != uid
  }

  /**
   * DELETE of one user with every cascade: the user's polls (and through them
   * their choices and votes), the user's choices (and their votes), the user's
   * votes, the moderator rows the user created, and the bans that name the
   * user as poll owner, as banned user, or by username as the issuer.
   */
  function WithoutUser(t: Tables, uid: string): (r: Tables)
    requires uid in t.users
    ensures r.users == t.users - {uid}
  {
    var name := t.users[uid].username;
    var polls := map p | p in t.polls && t.polls[p].createdBy != uid :: t.polls[p];
    var choices := map c | c in t.choices && t.choices[c].createdBy != uid && t.choices[c].pollId in polls
                     :: t.choices[c];
    var votes := map v | v in t.votes && t.votes[v].user != uid && t.votes[v].choiceId in choices :: t.votes[v];
    var moderators := map m | m in t.moderators && t.moderators[m].createdBy != uid :: t.moderators[m];
    var bans := map b | b in t.bans && t.bans[b].pollOwnerId != uid && t.bans[b].userId != uid
                  && t.bans[b].bannedBy != name :: t.bans[b];
    Tables(t.users - {uid}, polls, choices, votes, moderators, bans)
  }

  // -------------------------------------------------------------- properties

  /** A poll delete removes exactly the poll, its choices and the votes on them. */
  lemma DeletePollExact(t: Tables, id: int)
    requires Consistent(t)
    ensures WithoutPoll(t, id).polls == t.polls - {id}
    ensures forall c :: c in WithoutPoll(t, id).choices <==> c in t.choices && t.choices[c].pollId != id
    ensures forall v :: v in WithoutPoll(t, id).votes <==>
              v in t.votes && t.choices[t.votes[v].choiceId].pollId != id
    ensures forall c :: c in WithoutPoll(t, id).choices ==> WithoutPoll(t, id).choices[c] == t.choices[c]
    ensures forall v :: v in WithoutPoll(t, id).votes ==> WithoutPoll(t, id).votes[v] == t.votes[v]
    ensures WithoutPoll(t, id).(polls := t.polls, choices := t.choices, votes := t.votes) == t
  {
  }

  lemma DeletePollConsistent(t: Tables, id: int)
    requires Consistent(t)
    ensures Consistent(WithoutPoll(t, id))
  {
  }

  /** The choice cascade leaves no vote on a deleted choice. */
  lemma DeleteChoiceConsistent(t: Tables, id: int)
    requires Consistent(t)
    ensures Consistent(WithoutChoice(t, id))
  {
  }

  /** No foreign key references a vote, so removing one leaves a consistent store. */
  lemma DeleteVoteConsistent(t: Tables, id: int)
    requires Consistent(t)
    ensures Consistent(t.(votes := t.votes - {id}))
  {
  }

  /** No foreign key references a moderator row, so removing one leaves a consistent store. */
  lemma DeleteModeratorConsistent(t: Tables, id: int)
    requires Consistent(t)
    ensures Consistent(t.(moderators := t.moderators - {id}))
  {
  }

  lemma DeleteBansOfConsistent(t: Tables, userId: string)
    requires Consistent(t)
    ensures Consistent(WithoutBansOf(t, userId))
  {
  }

  /** A user delete the store accepts leaves a consistent store. */
  lemma DeleteUserConsistent(t: Tables, uid: string)
    requires Consistent(t) && uid in t.users && !UserDeleteRefused(t, uid)
    ensures Consistent(WithoutUser(t, uid))
  {
    var r := WithoutUser(t, uid);
    assert KeysMatch(r);
    assert UniqueUserFields(r.users);
    assert Widths(r);
    DeleteUserReferences(t, uid);
  }

  lemma DeleteUserReferences(t: Tables, uid: string)
    requires Consistent(t) && uid in t.users && !UserDeleteRefused(t, uid)
    ensures References(WithoutUser(t, uid))
  {
    DeleteUserRowReferences(t, uid);
    DeleteUserModeratorBanReferences(t, uid);
  }

  /** After a user delete, polls, choices and votes reference only surviving rows. */
  lemma DeleteUserRowReferences(t: Tables, uid: string)
    requires Consistent(t) && uid in t.users
    ensures var r := WithoutUser(t, uid);
      && (forall p :: p in r.polls ==> r.polls[p].createdBy in r.users)
      && (forall c :: c in r.choices ==> r.choices[c].pollId in r.polls && r.choices[c].createdBy in r.users)
      && (forall v :: v in r.votes ==> r.votes[v].user in r.users && r.votes[v].choiceId in r.choices)
  {
    var r := WithoutUser(t, uid);
    DeleteUserRemoves(t, uid);
    forall p | p in r.polls
      ensures r.polls[p].createdBy in r.users
    {
      assert r.polls[p] == t.polls[p];
    }
    forall c | c in r.choices
      ensures r.choices[c].pollId in r.polls && r.choices[c].createdBy in r.users
    {
      assert r.choices[c] == t.choices[c];
    }
    forall v | v in r.votes
      ensures r.votes[v].user in r.users && r.votes[v].choiceId in r.choices
    {
      assert r.votes[v] == t.votes[v];
    }
  }

  /** After an accepted user delete, moderator rows and bans reference only surviving users. */
  lemma DeleteUserModeratorBanReferences(t: Tables, uid: string)
    requires Consistent(t) && uid in t.users && !UserDeleteRefused(t, uid)
    ensures var r := WithoutUser(t, uid);
      && (forall m :: m in r.moderators ==> r.moderators[m].modUser in r.users && r.moderators[m].createdBy in r.users)
      && (forall b :: b in r.bans ==>
            && r.bans[b].pollOwnerId in r.users && r.bans[b].userId in r.users
            && r.bans[b].bannedBy in Usernames(r.users))
  {
    var r := WithoutUser(t, uid);
    DeleteUserRemoves(t, uid);
    forall m | m in r.moderators
      ensures r.moderators[m].modUser in r.users && r.moderators[m].createdBy in r.users
    {
      assert r.moderators[m] == t.moderators[m];
    }
    forall b | b in r.bans
      ensures r.bans[b].pollOwnerId in r.users && r.bans[b].userId in r.users
      ensures r.bans[b].bannedBy in Usernames(r.users)
    {
      assert r.bans[b] == t.bans[b];
      var k :| k in t.users && t.users[k].username == t.bans[b].bannedBy;
      assert k != uid;
      assert k in r.users;
    }
  }

  /**
   * Removing a user that a surviving moderator row names as `mod_user` would
   * leave a dangling reference, which is why the store refuses that delete.
   */
  lemma RefusedUserDeleteBreaksReferences(t: Tables, uid: string)
    requires Consistent(t) && uid in t.users && UserDeleteRefused(t, uid)
    ensures !Consistent(WithoutUser(t, uid))
  {
    var m :| m in t.moderators && t.moderators[m].modUser == uid && t.moderators[m].createdBy != uid;
    assert m in WithoutUser(t, uid).moderators;
  }

  /** A user delete only removes rows: every table keeps a subset of its keys. */
  lemma DeleteUserShrinks(t: Tables, uid: string)
    requires uid in t.users
    ensures WithoutUser(t, uid).polls.Keys <= t.polls.Keys
    ensures WithoutUser(t, uid).choices.Keys <= t.choices.Keys
    ensures WithoutUser(t, uid).votes.Keys <= t.votes.Keys
    ensures WithoutUser(t, uid).moderators.Keys <= t.moderators.Keys
    ensures WithoutUser(t, uid).bans.Keys <= t.bans.Keys
  {
  }

  /**
   * After a user delete no remaining row names the user, except a moderator
   * row naming it only as `mod_user`, and no remaining row hangs off a removed
   * one.
   */
  lemma DeleteUserRemoves(t: Tables, uid: string)
    requires uid in t.users
    ensures var r := WithoutUser(t, uid);
      && (forall p :: p in r.polls ==> r.polls[p].createdBy != uid)
      && (forall c :: c in r.choices ==> r.choices[c].createdBy != uid && r.choices[c].pollId in r.polls)
      && (forall v :: v in r.votes ==> r.votes[v].user != uid && r.votes[v].choiceId in r.choices)
      && (forall m :: m in r.moderators ==> r.moderators[m].createdBy != uid)
      && (forall b :: b in r.bans ==>
            r.bans[b].pollOwnerId != uid && r.bans[b].userId != uid && r.bans[b].bannedBy != t.users[uid].username)
  {
  }

  /**
   * The user cascade removes exactly what the ON DELETE CASCADE rules reach.
   * No remaining row names the user, except a moderator row naming it only as
   * `mod_user`; no remaining row hangs off a removed one; every row that
   * neither names the user nor hangs off a removed row stays; and every row
   * that stays is unchanged.
   */
  lemma DeleteUserExact(t: Tables, uid: string)
    requires uid in t.users
    ensures var r := WithoutUser(t, uid);
      && (forall p :: p in r.polls ==> r.polls[p].createdBy != uid)
      && (forall c :: c in r.choices ==> r.choices[c].createdBy != uid && r.choices[c].pollId in r.polls)
      && (forall v :: v in r.votes ==> r.votes[v].user != uid && r.votes[v].choiceId in r.choices)
      && (forall m :: m in r.moderators ==> r.moderators[m].createdBy != uid)
      && (forall b :: b in r.bans ==>
            r.bans[b].pollOwnerId != uid && r.bans[b].userId != uid && r.bans[b].bannedBy != t.users[uid].username)
    ensures var r := WithoutUser(t, uid);
      && (forall p :: p in t.polls && t.polls[p].createdBy != uid ==> p in r.polls)
      && (forall c :: c in t.choices && t.choices[c].createdBy != uid && t.choices[c].pollId in r.polls ==>
            c in r.choices)
      && (forall v :: v in t.votes && t.votes[v].user != uid && t.votes[v].choiceId in r.choices ==>
            v in r.votes)
      && (forall m :: m in t.moderators && t.moderators[m].createdBy != uid ==> m in r.moderators)
      && (forall b :: (b in t.bans && t.bans[b].pollOwnerId != uid && t.bans[b].userId != uid &&
                       t.bans[b].bannedBy != t.users[uid].username) ==> b in r.bans)
    ensures RowsKept(WithoutUser(t, uid), t)
  {
  }

  /**
   * After a user delete no remaining user holds the deleted user's username,
   * so `banned_by` can name no surviving ban's issuer by it.
   */
  lemma DeleteUserFreesName(t: Tables, uid: string)
    requires Consistent(t) && uid in t.users
    ensures t.users[uid].username !in Usernames(WithoutUser(t, uid).users)
  {
  }

  /**
   * Writing user row `u` keeps the store consistent when usernames and emails
   * stay unique and every ban's issuer is still some user's username.
   */
  lemma PutUserConsistent(t: Tables, u: User)
    requires Consistent(t)
    requires UniqueUserFields(t.users[u.uuidPk := u])
    requires forall b :: b in t.bans ==> t.bans[b].bannedBy in Usernames(t.users[u.uuidPk := u])
    ensures Consistent(t.(users := t.users[u.uuidPk := u]))
  {
    var r := t.(users := t.users[u.uuidPk := u]);
    assert KeysMatch(r);
    assert References(r);
  }

  /** Another user holding the written row's username or email breaks uniqueness. */
  lemma PutUserClashes(users: map<string, User>, u: User, k: string)
    requires k in users && k != u.uuidPk
    requires users[k].username == u.username || users[k].email == u.email
    ensures !UniqueUserFields(users[u.uuidPk := u])
  {
    var r := users[u.uuidPk := u];
    assert r[k] == users[k] && r[u.uuidPk] == u;
  }

  /**
   * An insert the database accepts keeps the store consistent; for a fresh
   * id, one it refuses would have broken a unique constraint.
   */
  lemma InsertUserConsistent(t: Tables, u: User)
    requires Consistent(t)
    ensures !UserInsertRefused(t, u) ==> Consistent(t.(users := t.users[u.uuidPk := u]))
    ensures u.uuidPk !in t.users && UserInsertRefused(t, u) ==> !Consistent(t.(users := t.users[u.uuidPk := u]))
  {
    var users := t.users[u.uuidPk := u];
    if !UserInsertRefused(t, u) {
      forall a, b | a in users && b in users && a != b
        ensures users[a].username != users[b].username && users[a].email != users[b].email
      {
        if a == u.uuidPk || b == u.uuidPk {
          var k := if a == u.uuidPk then b else a;
          assert users[k] == t.users[k];
          assert t.users[k].username in Usernames(t.users) && t.users[k].email in Emails(t.users);
        }
      }
      forall b | b in t.bans
        ensures t.bans[b].bannedBy in Usernames(users)
      {
        var k :| k in t.users && t.users[k].username == t.bans[b].bannedBy;
        assert k in users && users[k] == t.users[k];
      }
      PutUserConsistent(t, u);
    } else if u.uuidPk !in t.users {
      var k :| k in t.users && (k == u.uuidPk || t.users[k].username == u.username || t.users[k].email == u.email);
      PutUserClashes(t.users, u, k);
    }
  }

  /**
   * A user update keeps the store consistent exactly when the database
   * accepts it.
   */
  lemma UpdateUserConsistent(t: Tables, u: User)
    requires Consistent(t) && u.uuidPk in t.users
    ensures !UserUpdateRefused(t, u) <==> Consistent(t.(users := t.users[u.uuidPk := u]))
  {
    if !UserUpdateRefused(t, u) {
      UpdateUserAccepted(t, u);
    } else if exists k :: k in t.users && k != u.uuidPk &&
                (t.users[k].username == u.username || t.users[k].email == u.email) {
      var k :| k in t.users && k != u.uuidPk && (t.users[k].username == u.username || t.users[k].email == u.email);
      PutUserClashes(t.users, u, k);
    } else {
      var b :| b in t.bans && t.bans[b].bannedBy == t.users[u.uuidPk].username;
      UpdateUserOrphansBan(t, u, b);
    }
  }

  lemma UpdateUserAccepted(t: Tables, u: User)
    requires Consistent(t) && u.uuidPk in t.users && !UserUpdateRefused(t, u)
    ensures Consistent(t.(users := t.users[u.uuidPk := u]))
  {
    var users := t.users[u.uuidPk := u];
    forall a, b | a in users && b in users && a != b
      ensures users[a].username != users[b].username && users[a].email != users[b].email
    {
      if a == u.uuidPk || b == u.uuidPk {
        var k := if a == u.uuidPk then b else a;
        assert users[k] == t.users[k];
      }
    }
    forall b | b in t.bans
      ensures t.bans[b].bannedBy in Usernames(users)
    {
      var k :| k in t.users && t.users[k].username == t.bans[b].bannedBy;
      assert k in users;
      if k == u.uuidPk {
        assert users[k].username == u.username;
      } else {
        assert users[k] == t.users[k];
      }
    }
    PutUserConsistent(t, u);
  }

  /** Giving up a username that a ban names leaves `banned_by` dangling. */
  lemma UpdateUserOrphansBan(t: Tables, u: User, b: int)
    requires Consistent(t) && u.uuidPk in t.users && u.username != t.users[u.uuidPk].username
    requires b in t.bans && t.bans[b].bannedBy == t.users[u.uuidPk].username
    ensures !References(t.(users := t.users[u.uuidPk := u]))
  {
  }

  /**
   * Writing a poll row keeps the store consistent exactly when `PollFault` finds
   * nothing, and what is then written is the row the table keeps.
   */
  lemma PutPollConsistent(t: Tables, p: Poll)
    requires Consistent(t)
    ensures PollFault(t, p).None? <==>
              StoredPoll(p).Some? && Consistent(t.(polls := t.polls[p.id := StoredPoll(p).value]))
  {
    if StoredPoll(p).Some? {
      var row := StoredPoll(p).value;
      var r := t.(polls := t.polls[p.id := row]);
      if PollFault(t, p).Some? {
        assert p.id in r.polls && r.polls[p.id] == row;
      } else {
        assert KeysMatch(r);
        assert References(r);
        assert Widths(r);
      }
    }
  }

  /**
   * Writing a choice row keeps the store consistent exactly when `ChoiceFault` finds
   * nothing, and what is then written is the row the table keeps.
   */
  lemma PutChoiceConsistent(t: Tables, c: Choice)
    requires Consistent(t)
    ensures ChoiceFault(t, c).None? <==>
              StoredChoice(c).Some? && Consistent(t.(choices := t.choices[c.id := StoredChoice(c).value]))
  {
    if StoredChoice(c).Some? {
      var row := StoredChoice(c).value;
      var r := t.(choices := t.choices[c.id := row]);
      if ChoiceFault(t, c).Some? {
        assert c.id in r.choices && r.choices[c.id] == row;
      } else {
        assert KeysMatch(r);
        assert References(r);
        assert Widths(r);
      }
    }
  }

  /** Writing a vote keeps the store consistent exactly when `VoteFault` finds nothing. */
  lemma PutVoteConsistent(t: Tables, v: Vote)
    requires Consistent(t)
    ensures VoteFault(t, v).None? <==> Consistent(t.(votes := t.votes[v.id := v]))
  {
    var r := t.(votes := t.votes[v.id := v]);
    if VoteFault(t, v).Some? {
      assert v.id in r.votes && r.votes[v.id] == v;
    }
  }

  /**
   * Writing a moderator row keeps the store consistent exactly when `ModeratorFault` finds
   * nothing, and what is then written is the row the table keeps.
   */
  lemma PutModeratorConsistent(t: Tables, m: Moderator)
    requires Consistent(t)
    ensures ModeratorFault(t, m).None? <==>
              StoredModerator(m).Some? && Consistent(t.(moderators := t.moderators[m.id := StoredModerator(m).value]))
  {
    if StoredModerator(m).Some? {
      var row := StoredModerator(m).value;
      var r := t.(moderators := t.moderators[m.id := row]);
      if ModeratorFault(t, m).Some? {
        assert m.id in r.moderators && r.moderators[m.id] == row;
      } else {
        assert KeysMatch(r);
        assert References(r);
        assert Widths(r);
      }
    }
  }

  /** Writing a ban keeps the store consistent exactly when `BanFault` finds nothing. */
  lemma PutBanConsistent(t: Tables, b: Ban)
    requires Consistent(t)
    ensures BanFault(t, b).None? <==> Consistent(t.(bans := t.bans[b.id := b]))
  {
    var r := t.(bans := t.bans[b.id := b]);
    if BanFault(t, b).Some? {
      assert b.id in r.bans && r.bans[b.id] == b;
    } else {
      assert KeysMatch(r);
      assert References(r);
    }
  }
}
