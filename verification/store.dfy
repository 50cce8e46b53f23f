/**
 * The relational store the route handlers run against: the six tables as
 * maps that the handlers update in place, and the serial sequences that hand
 * out integer primary keys. Only committed state is modelled; a write the
 * database refuses leaves every table as it was.
 */
module Store {
  import opened Schema

  /** The last value each serial sequence handed out. */
  datatype Serials = Serials(poll: int, choice: int, vote: int, moderator: int, ban: int)

  /** No key is ahead of its table's sequence, so the next serial value is a free key. */
  ghost predicate Behind(t: Tables, s: Serials) {
    && (forall k :: k in t.polls ==> k <= s.poll)
    && (forall k :: k in t.choices ==> k <= s.choice)
    && (forall k :: k in t.votes ==> k <= s.vote)
    && (forall k :: k in t.moderators ==> k <= s.moderator)
    && (forall k :: k in t.bans ==> k <= s.ban)
  }

  class Database {
    var users: map<string, User>
    var polls: map<int, Poll>
    var choices: map<int, Choice>
    var votes: map<int, Vote>
    var moderators: map<int, Moderator>
    var bans: map<int, Ban>
    var serials: Serials

    function Tables(): Tables
      reads this
    {
      Schema.Tables(users, polls, choices, votes, moderators, bans)
    }

    /** The committed state is consistent and no key is ahead of its sequence. */
    ghost predicate Valid()
      reads this
    {
      Consistent(Tables()) && Behind(Tables(), serials)
    }

    /** `session.commit()`: the tables become `t` and the sequences `s`. */
    method Commit(t: Schema.Tables, s: Serials)
      requires Consistent(t) && Behind(t, s)
      modifies this
      ensures Tables() == t && serials == s
      ensures Valid()
    {
      users, polls, choices, votes, moderators, bans := t.users, t.polls, t.choices, t.votes, t.moderators, t.bans;
      serials := s;
    }

    constructor ()
      ensures Valid() && Tables() == EmptyTables && serials == Serials(0, 0, 0, 0, 0)
    {
      users, polls, choices, votes, moderators, bans := map[], map[], map[], map[], map[], map[];
      serials := Serials(0, 0, 0, 0, 0);
    }
  }
}
