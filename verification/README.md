# Poll backend: a Dafny model of its route handlers and store rules

This project models the core of a FastAPI poll service. Users register and log
in with a bearer token. They create polls of type `text` or `image`, add
choices to polls and vote on choices. Moderators ban and unban voters.

The store is a class, `Store.Database`, with one map-valued field per table
(`users`, `polls`, `choices`, `votes`, `moderators`, `bans`) and the serial
sequences that number new rows. Its invariant `Valid()` is `Schema.Consistent`
together with a bound: no key in a table exceeds that table's serial, so the
next serial value is always a free key. `Schema.Consistent` says:

- every row sits under its own key;
- usernames and emails are unique;
- every foreign key names an existing row;
- every bounded string fits its column.

Each route handler is a module-level method that takes the store (`db: Database`),
in one module per source file:
`UserRoutes`, `PollRoutes`, `LegacyPollRoutes`, `ChoiceRoutes`, `VoteRoutes`
and `BanRoutes`. A handler takes the caller (`caller: Option<User>`, None
when no user has the token's id) and the clock (`now`). As written,
`get_current_user` never resolves a caller: `OAuth.GetCurrentUser` always fails
(see Findings). So every handler that depends on it ends in that failure
before its body runs. The handler members model the bodies for the caller that
the corrected verification resolves (`OAuth.GetCurrentUserCorrected`). A
handler returns an `Http.Outcome`, which is one of:

- `Ok` (200) or `Created` (201) with a value;
- `Null`: the handler returned None;
- `Fail`: an `HTTPException` with status, detail and headers, or a `Crash`, an
  exception the handler does not catch (a dereferenced missing row, a
  constraint the database refuses, a rejected keyword argument).

Every mutating handler states its whole new state. It also states that a
failure leaves every table as it was, and that `Valid()` is preserved.
All writes go through `Store.Database.Commit`, the model of
`session.commit()`. It stores a new set of tables only when they are consistent
and their keys stay within the serials.

- The contracts of `Schema.WithoutPoll`, `Schema.WithoutChoice` and
  `Schema.WithoutBansOf` state which rows each delete removes and that every
  other row stays unchanged. For a user delete, `Schema.DeleteUserExact` states
  the same.
- The schema lemmas prove that each cascade keeps the store consistent, and
  why a user still named as `mod_user` cannot be deleted.
- For every insert or update, a lemma proves that the write keeps the store
  consistent exactly when the matching fault function (`Schema.PollFault` and
  the others) finds nothing.

The model follows the code where the code omits checks a poll service would be
expected to make, or departs from its own schema:

- `create_vote` checks no voting flag, ban or earlier vote. Only the two
  foreign keys can refuse a vote (`VoteRoutes.CreateVote`,
  `VoteRoutes.RepeatVoteAccepted`).
- `create_choice` does not consult the poll's `is_add_choices_active`.
- The moderator test ignores `mod_for` (`BanRoutes.ModeratorScopeIgnored`).
- Duplicate bans accumulate.
- Polls are owned by username, although `polls.created_by` references `users.id`.
- Token verification never accepts a token (see Findings).
- Unique-constraint violations are not mapped to a distinct error. They escape
  as `Crash(IntegrityError)`.

## Model

| member | source | states |
|---|---|---|
| Schema.ParsePollType | api/v1/models.py:44-47 | a poll type parses exactly when it is "text" or "image" |
| Schema.PollTypeRoundTrip | api/v1/models.py:44-47 | label and parse are inverse: every type's label parses back to it, and every accepted string is some type's label |
| Schema.NewPoll | api/v1/models.py:63-64 | `is_add_choices_active` and `is_voting_active` are false when not supplied and as supplied otherwise; `created_by` and `created_at` are as given |
| Schema.UserNamed | api/v1/models.py:20-21 | with usernames unique, the lookup finds a row iff some user has that username, and the row it finds has it |
| Schema.UserInsertRefused | api/v1/models.py:16-21 | an insert whose id is taken is always refused, and a refused insert always meets an existing row holding its id, username or email |
| Schema.UserUpdateRefused | api/v1/models.py:20-21 | with usernames and emails unique, rewriting a user row with itself is never refused |
| Schema.UserDeleteRefused | api/v1/models.py:130-133 | in a consistent store a refused delete is always of an existing user, since only a `mod_user` reference can block it |
| Schema.FitColumn | api/v1/models.py:43 | a `VARCHAR(n)` column refuses a value exactly when some character past the n-th is not a space; otherwise it keeps the value cut to n characters, a prefix whose dropped tail is all spaces |
| Schema.TrailingSpaceCut | api/v1/models.py:43 | a 150-character title followed by one space is stored as the 150 characters, not refused |
| Schema.FitColumnIdempotent | api/v1/models.py:43 | storing a kept value again keeps it unchanged |
| Schema.StoredPoll | api/v1/models.py:43 | the row `polls` keeps differs from the written one only in a fitted title, at most 150 characters |
| Schema.StoredChoice | api/v1/models.py:82-83 | the row `choices` keeps differs from the written one only in fitted `text` (at most 50) and `image` (at most 250) |
| Schema.StoredModerator | api/v1/models.py:129 | the row `moderators` keeps differs from the written one only in a fitted `mod_for`, at most 150 characters |
| Schema.PollFault | api/v1/models.py:43-51 | DataError exactly when the title has a non-space character past the 150th; any other fault is IntegrityError; no fault means the title can be stored |
| Schema.ChoiceFault | api/v1/models.py:76-87 | DataError exactly when `text` has a non-space character past the 50th or `image` one past the 250th; any other fault is IntegrityError |
| Schema.VoteFault | api/v1/models.py:106-113 | no fault exactly when the voter and the choice exist; the only fault is IntegrityError |
| Schema.ModeratorFault | api/v1/models.py:129-137 | DataError exactly when `mod_for` has a non-space character past the 150th; any other fault is IntegrityError |
| Schema.BanFault | api/v1/models.py:157-168 | no fault exactly when the poll owner and the banned user exist and some user has the issuer's username; the only fault is IntegrityError |
| Schema.WithoutPoll | api/v1/models.py:76-79 | the poll goes, no remaining choice belongs to it and no remaining vote is on a removed choice; every other row stays unchanged, and users, moderators and bans are untouched |
| Schema.WithoutChoice | api/v1/models.py:110-113 | the choice goes and no remaining vote is on it; every other row stays unchanged, and the other tables are untouched |
| Schema.WithoutBansOf | api/v1/bans/ban_routes.py:120-121 | no remaining ban names the user, every other ban stays unchanged, and the other tables are untouched |
| Schema.WithoutUser | api/v1/models.py:48-168 | the users table loses exactly the deleted user |
| Schema.DeleteUserExact | api/v1/models.py:48-168 | after a user delete no row names the user except a moderator row naming it only as `mod_user`, no row hangs off a removed one, every row that does neither stays, and every surviving row is unchanged |
| Schema.DeletePollExact | api/v1/models.py:76-79 | deleting a poll removes exactly that poll, the choices of that poll and the votes on those choices, and leaves every other row and table unchanged |
| Schema.DeletePollConsistent | api/v1/models.py:76-117 | the poll cascade leaves a consistent store |
| Schema.DeleteChoiceConsistent | api/v1/models.py:110-113 | the choice cascade, which takes the votes on the choice with it, leaves a consistent store |
| Schema.DeleteBansOfConsistent | api/v1/bans/ban_routes.py:120-121 | removing every ban of a user leaves a consistent store |
| Schema.DeleteUserConsistent | api/v1/models.py:48-168 | a user delete the database accepts leaves a consistent store after every cascade |
| Schema.RefusedUserDeleteBreaksReferences | api/v1/models.py:130-133 | when another user's moderator row names the user as `mod_user`, the cascaded delete would leave a dangling reference, so the database must refuse it |
| Schema.DeleteUserFreesName | api/v1/models.py:20-21 | after a user delete no remaining user holds the deleted user's username |
| Schema.InsertUserConsistent | api/v1/models.py:16-22 | inserting a user whose id, username and email are all free keeps the store consistent; with a fresh id, an insert the database refuses would have broken a unique constraint |
| Schema.UpdateUserConsistent | api/v1/models.py:20-21 | rewriting a user row keeps the store consistent exactly when the database accepts it: no other user holds its username or email, and no ban names a username it gives up |
| Schema.PutPollConsistent | api/v1/models.py:43-54 | `PollFault` finds nothing exactly when the title can be stored and writing the stored row keeps the store consistent (`created_by` names an existing user) |
| Schema.PutChoiceConsistent | api/v1/models.py:76-87 | `ChoiceFault` finds nothing exactly when `text` and `image` can be stored and writing the stored row keeps the store consistent (the poll and the creator exist) |
| Schema.PutVoteConsistent | api/v1/models.py:106-113 | writing a vote keeps the store consistent exactly when `VoteFault` finds nothing: the voter and the choice exist |
| Schema.PutModeratorConsistent | api/v1/models.py:129-137 | `ModeratorFault` finds nothing exactly when `mod_for` can be stored and writing the stored row keeps the store consistent (both users exist) |
| Schema.PutBanConsistent | api/v1/models.py:157-168 | writing a ban keeps the store consistent exactly when `BanFault` finds nothing: the owner and the user exist and the issuer is an existing username |
| OAuth.MakeTokenData | api/v1/users/schemas.py:16-20 | token data is built iff both `uuid_pk` and `username` are present strings, and it carries them |
| OAuth.WithExpiry | api/v1/users/oauth.py:21-23 | the signed claims are the input's entries plus one `exp` entry, equal to now plus the configured weeks in seconds |
| OAuth.CreateToken | api/v1/users/oauth.py:19-25 | the token is the signature over exactly those claims; the caller's map is a value and stays unchanged |
| OAuth.VerifyToken | api/v1/users/oauth.py:28-40 | verification always fails: with the 401 Bearer credentials exception iff the token does not decode or has no (or a null) `uuid_pk`, and otherwise with the validation error of the required `username` |
| OAuth.CredentialsException | api/v1/users/oauth.py:48-52 | a 401 that carries the `WWW-Authenticate: Bearer` challenge |
| OAuth.FindUser | api/v1/users/oauth.py:55-57 | a row exactly when one has that id, and then that row |
| OAuth.FindUserMatches | api/v1/users/oauth.py:55-59 | the lookup finds a user iff one has that id, and returns that row; a missing user is not an error |
| OAuth.GetCurrentUser | api/v1/users/oauth.py:43-59 | resolving a caller fails with exactly the error verification fails with |
| OAuth.VerifyTokenCorrected | api/v1/users/oauth.py:28-40 | corrected verification accepts iff the claims carry `uuid_pk` and `username` as strings and returns them; it fails as `VerifyToken` does otherwise |
| OAuth.GetCurrentUserCorrected | api/v1/users/oauth.py:43-59 | with corrected verification, the caller is the row whose id is the token's `uuid_pk`, or None |
| UserRoutes.GetUserById | api/v1/users/user_routes.py:36-51 | None without a caller; 404 for an absent id; otherwise the row with that id |
| UserRoutes.UpdateUserAsWritten | api/v1/users/user_routes.py:55-80 | as written: 404 before the caller is read, then 403 for another user; the owner's call fails at the keyword-argument `update`, so no update ever succeeds or changes a table |
| UserRoutes.UpdateUser | api/v1/users/user_routes.py:55-80 | corrected: 404 before the caller is read, then 403 for another user; on success the row holds the body's fields as sent (the password is not hashed) and `updated_at` = now; a refused write or any failure changes no table |
| UserRoutes.DeleteUser | api/v1/users/user_routes.py:84-107 | 404, then 403; the delete is refused while another user's moderator row names the user; otherwise the store is exactly the cascaded delete |
| UserRoutes.Create | api/v1/users/user_routes.py:111-128 | a row is created iff id, username and email are all free; the stored password is `hash_pwd` of the one sent |
| UserRoutes.LoginClaims | api/v1/users/user_routes.py:152-154 | the claims are exactly `id` and `username`, holding the user's id and name, and there is no `uuid_pk` |
| UserRoutes.Login | api/v1/users/user_routes.py:132-155 | an unknown username and a wrong password give the same 401; otherwise a bearer token signed over that user's `id` and `username` plus `exp` |
| UserRoutes.LoginTokenRefused | api/v1/users/user_routes.py:152-155 | the token `login` issues is refused by `verify_token` with the credentials exception, because it has no `uuid_pk` |
| UserRoutes.LoginTokenAccepted | api/v1/users/user_routes.py:152-155 | with `uuid_pk` in the claims and corrected verification, a stored user's login token resolves back to that user's row |
| UserRoutes.GetModerator | api/v1/users/user_routes.py:175-190 | None without a caller; 404 "moderator does not exist" for an absent id; otherwise that row |
| UserRoutes.UpdateModeratorAsWritten | api/v1/users/user_routes.py:194-218 | as written: 404, then 403 unless the caller created the row; the creator's call fails at the keyword-argument `update`, so no update ever succeeds or changes a table |
| UserRoutes.UpdateModerator | api/v1/users/user_routes.py:194-218 | corrected: 404, then 403 unless the caller created the row; on success `mod_for`, `mod_user` and `updated_at` are written and returned as stored; a failure changes no table |
| UserRoutes.DeleteModerator | api/v1/users/user_routes.py:222-251 | an absent id crashes on the missing row before any 404; 403 unless the caller created the row; the creator's delete removes exactly that row |
| UserRoutes.CreateModeratorAsWritten | api/v1/users/user_routes.py:255-284 | as written: None without a caller, 404 when no user has the username `mod_user`, and otherwise a crash; never a created row |
| UserRoutes.CreateModerator | api/v1/users/user_routes.py:255-284 | corrected: 404 when no user has the username `mod_user`; otherwise one new row with `created_by` = the caller's id regardless of the body, stored with `mod_for` fitted, or no change when the database refuses it |
| PollRoutes.RetrievePolls | api/v1/polls/poll_routes.py:15-20 | needs no caller: every poll when there is one, else "No polls available" |
| PollRoutes.CreatePoll | api/v1/polls/poll_routes.py:24-41 | `created_by` is the caller's username whatever the body says; the row is inserted under the next serial and returned as stored, its title fitted to the column, or nothing changes when the database refuses it |
| PollRoutes.RetrievePollById | api/v1/polls/poll_routes.py:45-55 | needs no caller; 404 for an absent id, otherwise that row |
| PollRoutes.UpdatePollAsWritten | api/v1/polls/poll_routes.py:59-82 | as written: 404, then 403 when `created_by` is not the caller's username; the owner's call fails at the keyword-argument `update`, so no update ever succeeds or changes a table |
| PollRoutes.UpdatePoll | api/v1/polls/poll_routes.py:59-82 | corrected: 404, then 403 when `created_by` is not the caller's username; on success every body field, `created_by` included, and `updated_at` = now, written and returned as stored; no change on failure |
| PollRoutes.DeletePoll | api/v1/polls/poll_routes.py:86-107 | 404, then 403; the owner's delete leaves exactly the poll cascade |
| LegacyPollRoutes.RetrievePolls | api/v1/routes.py:17-22 | the same listing as the newer router, needing no caller |
| LegacyPollRoutes.CreatePoll | api/v1/routes.py:26-36 | `created_by` is the caller's username, `updated_at` is as sent, the row is returned as stored, and the answer is 200 |
| LegacyPollRoutes.RetrievePollById | api/v1/routes.py:40-50 | 404 for an absent id, otherwise that row |
| LegacyPollRoutes.UpdatePoll | api/v1/routes.py:54-73 | 404, then 403 on username ownership; on success the handler returns None and changes no table, since it only stamps the loaded row and never commits |
| LegacyPollRoutes.DeletePoll | api/v1/routes.py:77-98 | 404, then 403, then exactly the poll cascade |
| ChoiceRoutes.GetChoiceById | api/v1/choices/choice_route.py:28-42 | None without a caller; 404 for an absent id; otherwise that row |
| ChoiceRoutes.UpdateChoiceAsWritten | api/v1/choices/choice_route.py:46-75 | as written: an absent id crashes on the missing row before any 404; 403 for a choice the caller did not create; the creator's call fails at the keyword-argument `update`, so no update ever succeeds or changes a table |
| ChoiceRoutes.UpdateChoice | api/v1/choices/choice_route.py:46-75 | corrected: an absent id crashes on the missing row before any 404; 403 for a choice the caller did not create; on success the body's fields and `updated_at` = now, written and returned as stored; no change on failure |
| ChoiceRoutes.DeleteChoice | api/v1/choices/choice_route.py:79-105 | an absent id crashes on the missing row; 403 for another's choice; the creator's delete removes exactly the choice and its votes |
| ChoiceRoutes.CreateChoiceAsWritten | api/v1/choices/choice_route.py:109-127 | as written: None without a caller, and otherwise the record constructor rejects `text`; never a created row |
| ChoiceRoutes.CreateChoice | api/v1/choices/choice_route.py:109-127 | corrected: `created_by` is the caller's id whatever the body says; the poll's flags are not consulted, so the row is refused only by the column widths or the foreign keys, and otherwise stored and returned with its strings fitted |
| VoteRoutes.GetVote | api/v1/votes/vote_routes.py:27-39 | None without a caller; 404 for an absent id; otherwise that row |
| VoteRoutes.DeleteVote | api/v1/votes/vote_routes.py:43-69 | an absent id crashes on the missing row; 403 when the caller is not the voter; the voter's delete removes exactly that vote |
| VoteRoutes.CreateVote | api/v1/votes/vote_routes.py:73-91 | `user` is the caller's id whatever the body says; a vote is created iff the caller and the choice exist, with no voting-flag, ban or earlier-vote check |
| VoteRoutes.RepeatVoteAccepted | api/v1/votes/vote_routes.py:79-87 | a user who voted on a choice may vote on it again, whatever the poll's flag and any ban |
| BanRoutes.IsModerator | api/v1/bans/ban_routes.py:21-23 | true exactly when the user is the `mod_user` of some moderator row, and never for an empty table |
| BanRoutes.ModeratorScopeIgnored | api/v1/bans/ban_routes.py:21-23 | the moderator test depends only on `mod_user`; tables that agree on it answer alike whatever `mod_for` holds |
| BanRoutes.BanUser | api/v1/bans/ban_routes.py:14-42 | the caller is read first, then 404 when the path user is absent, then 403 for a non-moderator; on success one ban made from the body alone is inserted |
| BanRoutes.RepeatBanAdmitted | api/v1/bans/ban_routes.py:37-39 | repeating an existing ban's body passes every database check, so duplicates accumulate |
| BanRoutes.GetUserAsWritten | api/v1/bans/ban_routes.py:66-88 | as written: every call fails on the first `await` |
| BanRoutes.GetUser | api/v1/bans/ban_routes.py:66-88 | corrected: a moderator gets some ban of the user, or 404 when there is none; anyone else gets 400 |
| BanRoutes.UnbanUser | api/v1/bans/ban_routes.py:92-122 | the caller is read first; a moderator gets 404 when no ban names the user, and anyone else gets 400; the moderator's unban removes every ban of the user across poll owners and nothing else |
| BanRoutes.UnbanAffectsOnlyUser | api/v1/bans/ban_routes.py:97-121 | after an unban the user is not banned, every other user is banned exactly when they were before, and a second unban changes nothing |

## Left out

- Signing, decoding, hashing and password checks are foreign library calls.
  They are function parameters: `sign`, `decode`, `hashPwd` and `verifyPwd`.
  The settings `ACCESS_TOKEN_EXPIRE_WEEKS`, the secret key and the algorithm
  are parameters too, as is the database's `gen_random_uuid()` (`newUuid`).
- Time is an integer number of seconds passed in as `now`. Time zones, and the
  difference between `now()` on the server and `utcnow()` in the handler, are
  not modelled.
- A handler that refreshes its row after the commit returns the row as stored
  (`Schema.StoredPoll` and the others: over-long strings whose excess is all
  spaces come back cut). Where the handler passes `session.refresh` a query or
  a row count, the source then raises; the model reports the committed
  result.
- The corrected `ChoiceRoutes.UpdateChoice` writes the body's `text` into
  `txt`; how the ORM resolves a column name given as an update key is not
  modelled.
- Schema.PollFault and Schema.ModeratorFault report a username written into a
  UUID column as IntegrityError; PostgreSQL refuses such text earlier, as a
  DataError. Both end the request with an uncaught error and no change.
- Response-model serialisation is not modelled. For example, `ban_user`
  returns a message dict under a response model that describes a ban row.
- A serial value consumed by an insert the database refuses is not consumed in
  the model; `serials` moves only on a committed insert.
- The list handlers `retrieve_users`, `get_moderators`, `get_choices`,
  `get_votes` and `retrieve_banned_users` return whole tables and are not
  modelled.
- Request validation by pydantic (UUID and email formats, numeric coercion) is
  not modelled; bodies arrive as typed values.
- UserRoutes.GetUserById, UserRoutes.UpdateUserAsWritten, UserRoutes.UpdateUser,
  UserRoutes.DeleteUser, UserRoutes.GetModerator,
  UserRoutes.UpdateModeratorAsWritten, UserRoutes.UpdateModerator,
  BanRoutes.BanUser, BanRoutes.GetUserAsWritten, BanRoutes.GetUser,
  BanRoutes.UnbanUser: these handlers take their path id as unchecked text
  (`uuid_pk` at api/v1/users/user_routes.py:37, 56 and 85; `id_` at
  api/v1/users/user_routes.py:176 and 195; `user_id` at
  api/v1/bans/ban_routes.py:15, 67 and 93). Text that is not a UUID, or not an
  integer for a moderator id, makes PostgreSQL raise DataError, an uncaught
  error, before any 404 or 400. The model takes the id as valid (a moderator id
  is an `int`) and answers as for an absent or a present row.
  The model looks a user id up by exact text, so it takes ids in the canonical
  lower-case hyphenated form the database returns. PostgreSQL compares these
  UUID columns as UUIDs (api/v1/users/user_routes.py:43, 63 and 92;
  api/v1/bans/ban_routes.py:20, 71 and 97). An upper-case, brace-wrapped or
  unhyphenated spelling of an existing id is found by the source, but the
  model answers it as for an absent id.
- VoteRoutes.GetVote, VoteRoutes.DeleteVote, VoteRoutes.CreateVote:
  api/v1/votes/vote_routes.py:8 imports `VoteRes` and `VoteSchema` from
  api/v1/schema.py, which defines neither. As written the module fails to
  import, so none of its routes is served. These members model the handler
  bodies with the `VoteSchema` and `VoteRes` of api/v1/votes/schemas.py.
- Transactions and concurrency: each handler runs alone to completion, and a
  refused commit changes nothing.
- The application setup and the database configuration (`get_db`,
  `database_config`, `settings`) are not part of this model.
- BanRoutes.GetUser: which of several bans of the same user `first()` returns
  is unspecified; the contract says only that it is one of them.

## Findings

| source | as written | input that shows it | evidently intended | confidence | as-written member | corrected member |
|---|---|---|---|---|---|---|
| api/v1/users/oauth.py:35 | token data is built from `uuid_pk` alone, but `TokenData` requires `username`, and `login` signs `id` rather than `uuid_pk`, so no token is ever accepted | the token `login` issues for any stored user | the token names the user by `uuid_pk`, and verification recovers that user | not executed | UserRoutes.LoginTokenRefused | UserRoutes.LoginTokenAccepted |
| api/v1/users/user_routes.py:272 | `created_by` is assigned on the request model, which declares no such field, so the assignment raises | any caller, with `mod_user` an existing username | insert the moderator row with `created_by` = the caller's id | not executed | UserRoutes.CreateModeratorAsWritten | UserRoutes.CreateModerator |
| api/v1/choices/choice_route.py:117 | `Choice(**choice.dict())` passes `text`, but the mapped attribute is `txt`, so the constructor rejects the keyword | any caller, with any body | store the body's `text` in `txt` and insert the row | not executed | ChoiceRoutes.CreateChoiceAsWritten | ChoiceRoutes.CreateChoice |
| api/v1/bans/ban_routes.py:71 | the synchronous result of `query(...).first()` is awaited, which raises before any check | any request | look the ban and the moderator up without awaiting | not executed | BanRoutes.GetUserAsWritten | BanRoutes.GetUser |
| api/v1/users/user_routes.py:77 | the body's fields are passed to `Query.update` as keyword arguments, but it takes one positional map of values, so the call raises before the commit | the owner updating their own user row | write the body's fields in one update and commit | not executed | UserRoutes.UpdateUserAsWritten | UserRoutes.UpdateUser |
| api/v1/users/user_routes.py:215 | the same keyword-argument call to `Query.update` raises before the commit | the row's creator updating a moderator row | write `mod_for` and `mod_user` and commit | not executed | UserRoutes.UpdateModeratorAsWritten | UserRoutes.UpdateModerator |
| api/v1/polls/poll_routes.py:79 | the same keyword-argument call to `Query.update` raises before the commit | the owner updating their poll | write every body field and commit | not executed | PollRoutes.UpdatePollAsWritten | PollRoutes.UpdatePoll |
| api/v1/choices/choice_route.py:68 | the same keyword-argument call to `Query.update` raises before the commit | the creator updating their choice | write the body's fields and commit | not executed | ChoiceRoutes.UpdateChoiceAsWritten | ChoiceRoutes.UpdateChoice |
