/** The two tables the subscription controller works on, and the ORM queries it
    issues against them. A meetup is reduced to the two columns the controller
    reads (its organiser and its date); a subscription row is the pair of
    foreign keys declared in src/app/models/Subscription.js. Dates are integer
    timestamps, and "now" is always a parameter. */
module Tables {

  type UserId = int
  type MeetupId = int
  type Date = int

  /** The columns of a meetup row that the controller reads: `user_id` (the
      organiser) and `date`. */
  datatype Meetup = Meetup(organizer: UserId, date: Date)

  /** One row of the subscriptions table. */
  datatype Subscription = Subscription(userId: UserId, meetupId: MeetupId)

  datatype Option<T> = None | Some(value: T)

  /** The meetup table, keyed by primary key. */
  type Meetups = map<MeetupId, Meetup>

  /** The date of the meetup a row refers to (the joined `Meetup.date`). */
  function DateOf(meetups: Meetups, s: Subscription): Date
    requires s.meetupId in meetups
  {
    meetups[s.meetupId].date
  }

  /** Every row refers to an existing meetup (the foreign key
      `subscriptions.meetup_id -> meetups.id`). */
  predicate Referenced(meetups: Meetups, rows: seq<Subscription>)
  {
    forall i :: 0 <= i < |rows| ==> rows[i].meetupId in meetups
  }

  // ---------------------------------------------------------------------------
  // findOne: a user's subscription joined (inner join) with a meetup filter
  // ---------------------------------------------------------------------------

  /** The `where` clause put on the included Meetup: either its primary key or
      its exact date. */
  datatype Where = MeetupIs(id: MeetupId) | DateIs(date: Date)

  /** Row `s` is returned by `findOne({ where: { user_id }, include: [{ model:
      Meetup, required: true, where }] })`: it belongs to the user, its meetup
      exists (the join is an inner join) and the meetup satisfies `where`. */
  predicate Matches(meetups: Meetups, userId: UserId, where: Where, s: Subscription)
  {
    s.userId == userId && s.meetupId in meetups &&
    match where
    case MeetupIs(id) => s.meetupId == id
    case DateIs(date) => meetups[s.meetupId].date == date
  }

  /** Some row of the table matches the query. */
  predicate AnyMatch(meetups: Meetups, rows: seq<Subscription>, userId: UserId, where: Where)
  {
    exists i :: 0 <= i < |rows| && Matches(meetups, userId, where, rows[i])
  }

  /** `Subscription.findOne` with an inner join on Meetup: some matching row,
      or nothing exactly when no row matches. The table has no declared order,
      so which matching row is returned is not part of the contract. */
  function FindOne(meetups: Meetups, rows: seq<Subscription>, userId: UserId, where: Where)
    : (r: Option<Subscription>)
    ensures r.Some? ==> r.value in rows && Matches(meetups, userId, where, r.value)
    ensures r.None? <==> !AnyMatch(meetups, rows, userId, where)
  {
    if rows == [] then None
    else if Matches(meetups, userId, where, rows[0]) then Some(rows[0])
    else
      var r := FindOne(meetups, rows[1..], userId, where);
      assert forall i :: 1 <= i < |rows| ==> rows[i] == rows[1..][i - 1];
      r
  }

  // ---------------------------------------------------------------------------
  // findAll: the user's subscriptions to future meetups, ordered by date
  // ---------------------------------------------------------------------------

  /** Row `s` passes the listing query: it belongs to the user and its meetup
      exists and lies strictly after `now`. */
  predicate IsUpcoming(meetups: Meetups, userId: UserId, now: Date, s: Subscription)
  {
    s.userId == userId && s.meetupId in meetups && meetups[s.meetupId].date > now
  }

  /** The `where` and `include` part of `Subscription.findAll`: every copy of
      every passing row, and nothing else. */
  function Upcoming(meetups: Meetups, rows: seq<Subscription>, userId: UserId, now: Date)
    : (r: seq<Subscription>)
    ensures forall s ::
      multiset(r)[s] == if IsUpcoming(meetups, userId, now, s) then multiset(rows)[s] else 0
    ensures forall i :: 0 <= i < |r| ==> IsUpcoming(meetups, userId, now, r[i])
  {
    if rows == [] then []
    else
      assert rows == [rows[0]] + rows[1..];
      var rest := Upcoming(meetups, rows[1..], userId, now);
      if IsUpcoming(meetups, userId, now, rows[0]) then [rows[0]] + rest else rest
  }

  /** Rows whose meetups all exist, each dated no later than the next. */
  predicate SortedByDate(meetups: Meetups, rows: seq<Subscription>)
  {
    Referenced(meetups, rows) &&
    forall i :: 0 < i < |rows| ==> DateOf(meetups, rows[i - 1]) <= DateOf(meetups, rows[i])
  }

  /** In a date-ordered sequence every row is dated no later than every row
      after it. */
  lemma {:induction false} SortedByDateAllPairs(meetups: Meetups, rows: seq<Subscription>)
    requires SortedByDate(meetups, rows)
    ensures forall i, j :: 0 <= i <= j < |rows| ==> DateOf(meetups, rows[i]) <= DateOf(meetups, rows[j])
  {
    if rows != [] {
      SortedTail(meetups, rows);
      var tail := rows[1..];
      SortedByDateAllPairs(meetups, tail);
      forall i, j | 0 <= i <= j < |rows|
        ensures DateOf(meetups, rows[i]) <= DateOf(meetups, rows[j])
      {
        if 0 < i {
          assert rows[i] == tail[i - 1] && rows[j] == tail[j - 1];
        } else if 0 < j {
          assert rows[1] == tail[0] && rows[j] == tail[j - 1];
        }
      }
    }
  }

  /** Places `s` into an already date-ordered sequence. */
  function InsertByDate(meetups: Meetups, s: Subscription, rows: seq<Subscription>)
    : (r: seq<Subscription>)
    requires s.meetupId in meetups && SortedByDate(meetups, rows)
    ensures SortedByDate(meetups, r)
    ensures multiset(r) == multiset(rows) + multiset{s}
    ensures |r| == |rows| + 1 && (r[0] == s || (rows != [] && r[0] == rows[0]))
  {
    if rows == [] then [s]
    else if DateOf(meetups, s) <= DateOf(meetups, rows[0]) then
      SortedCons(meetups, s, rows);
      [s] + rows
    else
      assert rows == [rows[0]] + rows[1..];
      SortedTail(meetups, rows);
      var rest := InsertByDate(meetups, s, rows[1..]);
      SortedCons(meetups, rows[0], rest);
      [rows[0]] + rest
  }

  /** The tail of a date-ordered sequence is date-ordered. */
  lemma SortedTail(meetups: Meetups, rows: seq<Subscription>)
    requires rows != [] && SortedByDate(meetups, rows)
    ensures SortedByDate(meetups, rows[1..])
  {
    assert forall i :: 0 <= i < |rows| - 1 ==> rows[1..][i] == rows[i + 1];
  }

  /** A row dated no later than the head of a date-ordered sequence may be put
      in front of it. */
  lemma SortedCons(meetups: Meetups, x: Subscription, rows: seq<Subscription>)
    requires x.meetupId in meetups && SortedByDate(meetups, rows)
    requires rows != [] ==> DateOf(meetups, x) <= DateOf(meetups, rows[0])
    ensures SortedByDate(meetups, [x] + rows)
  {
    assert forall i :: 1 <= i < |rows| + 1 ==> ([x] + rows)[i] == rows[i - 1];
  }

  /** The `order: [[Meetup, 'date']]` part of `Subscription.findAll`: the same
      rows, ascending by meetup date. Rows with equal dates may come in any
      order, as in SQL. */
  function SortByDate(meetups: Meetups, rows: seq<Subscription>): (r: seq<Subscription>)
    requires Referenced(meetups, rows)
    ensures SortedByDate(meetups, r)
    ensures multiset(r) == multiset(rows)
  {
    if rows == [] then []
    else
      assert rows == [rows[0]] + rows[1..];
      InsertByDate(meetups, rows[0], SortByDate(meetups, rows[1..]))
  }
}
