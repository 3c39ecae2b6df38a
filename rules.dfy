/** The business rules of `SubscriptionController.store`: four checks run in a
    fixed order, the first that fails decides the error, and only when all
    pass is one row added. `Decide` is the specification of the controller's
    `Store` method; the lemmas below state what the rules promise. */
module SubscriptionRules {
  import opened Tables

  /** The four rejections of `store`, each answered with HTTP 400. */
  datatype Error =
    | OwnMeetup          // the subscriber organises the meetup
    | PastMeetup         // the meetup's date lies before now
    | AlreadySubscribed  // the subscriber already holds this meetup
    | SameTime           // the subscriber holds a meetup at the very same date

  datatype Outcome = Created(subscription: Subscription) | Rejected(error: Error)

  /** The `error` text of the 400 response for each rejection. */
  function Message(e: Error): string
  {
    match e
    case OwnMeetup => "You can not subscribe in your own meetups"
    case PastMeetup => "Subscribe in a past meetup is not permitted"
    case AlreadySubscribed => "Sorry, you can not subscribe two times in a same meetup"
    case SameTime => "Sorry, you can not subscribe in two meetups at the same time"
  }

  /** The derived `past` field of a meetup. */
  predicate Past(m: Meetup, now: Date)
  {
    m.date < now
  }

  /** What `store` answers when `userId` asks to join `meetupId` at time
      `now`, given the two tables. The meetup must exist: the source reads
      `meetup.user_id` from the lookup result without a not-found guard. */
  function Decide(meetups: Meetups, rows: seq<Subscription>, userId: UserId, meetupId: MeetupId, now: Date)
    : (r: Outcome)
    requires meetupId in meetups
    ensures r.Created? ==> r.subscription == Subscription(userId, meetupId)
    ensures r.Created? ==>
      meetups[meetupId].organizer != userId && !Past(meetups[meetupId], now) &&
      forall i :: 0 <= i < |rows| && rows[i].userId == userId && rows[i].meetupId in meetups ==>
        DateOf(meetups, rows[i]) != meetups[meetupId].date
  {
    var meetup := meetups[meetupId];
    if meetup.organizer == userId then Rejected(OwnMeetup)
    else if Past(meetup, now) then Rejected(PastMeetup)
    else if AnyMatch(meetups, rows, userId, MeetupIs(meetupId)) then Rejected(AlreadySubscribed)
    else if AnyMatch(meetups, rows, userId, DateIs(meetup.date)) then Rejected(SameTime)
    else Created(Subscription(userId, meetupId))
  }

  /** The subscriptions table after an outcome: a created row is appended. */
  function Apply(rows: seq<Subscription>, outcome: Outcome): (r: seq<Subscription>)
    ensures |r| == |rows| + (if outcome.Created? then 1 else 0) && r[..|rows|] == rows
    ensures outcome.Created? ==> r[|rows|] == outcome.subscription
  {
    match outcome
    case Created(s) => rows + [s]
    case Rejected(_) => rows
  }

  // ---------------------------------------------------------------------------
  // Table invariants the rules are meant to keep
  // ---------------------------------------------------------------------------

  /** No user holds two rows whose (existing) meetups share a date. */
  predicate NoDoubleBooking(meetups: Meetups, rows: seq<Subscription>)
  {
    forall i, j ::
      (0 <= i < j < |rows| && rows[i].userId == rows[j].userId &&
       rows[i].meetupId in meetups && rows[j].meetupId in meetups) ==>
      DateOf(meetups, rows[i]) != DateOf(meetups, rows[j])
  }

  /** No `(user_id, meetup_id)` pair occurs twice. */
  predicate NoDuplicatePairs(rows: seq<Subscription>)
  {
    forall i, j :: 0 <= i < j < |rows| ==> rows[i] != rows[j]
  }

  // ---------------------------------------------------------------------------
  // Each check on its own
  // ---------------------------------------------------------------------------

  /** A user cannot join a meetup they organise; nothing is written. */
  lemma OwnMeetupRejected(meetups: Meetups, rows: seq<Subscription>, userId: UserId, meetupId: MeetupId, now: Date)
    requires meetupId in meetups && meetups[meetupId].organizer == userId
    ensures Decide(meetups, rows, userId, meetupId, now) == Rejected(OwnMeetup)
    ensures Apply(rows, Decide(meetups, rows, userId, meetupId, now)) == rows
  {
  }

  /** Someone else's meetup that lies in the past is refused; nothing is
      written. */
  lemma PastMeetupRejected(meetups: Meetups, rows: seq<Subscription>, userId: UserId, meetupId: MeetupId, now: Date)
    requires meetupId in meetups && meetups[meetupId].organizer != userId
    requires meetups[meetupId].date < now
    ensures Decide(meetups, rows, userId, meetupId, now) == Rejected(PastMeetup)
    ensures Apply(rows, Decide(meetups, rows, userId, meetupId, now)) == rows
  {
  }

  /** A second subscription to the same meetup is refused as a duplicate,
      although the same-date check would refuse it too: the duplicate check
      runs first. */
  lemma DuplicateRejected(meetups: Meetups, rows: seq<Subscription>, userId: UserId, meetupId: MeetupId, now: Date)
    requires meetupId in meetups && meetups[meetupId].organizer != userId
    requires !Past(meetups[meetupId], now)
    requires Subscription(userId, meetupId) in rows
    ensures AnyMatch(meetups, rows, userId, DateIs(meetups[meetupId].date))
    ensures Decide(meetups, rows, userId, meetupId, now) == Rejected(AlreadySubscribed)
    ensures Apply(rows, Decide(meetups, rows, userId, meetupId, now)) == rows
  {
  }

  /** A subscription to another meetup at the very same date blocks the new
      one; nothing is written. */
  lemma SameTimeRejected(meetups: Meetups, rows: seq<Subscription>, userId: UserId, meetupId: MeetupId, now: Date, other: MeetupId)
    requires meetupId in meetups && meetups[meetupId].organizer != userId
    requires !Past(meetups[meetupId], now)
    requires Subscription(userId, meetupId) !in rows
    requires other in meetups && meetups[other].date == meetups[meetupId].date
    requires Subscription(userId, other) in rows
    ensures Decide(meetups, rows, userId, meetupId, now) == Rejected(SameTime)
    ensures Apply(rows, Decide(meetups, rows, userId, meetupId, now)) == rows
  {
  }

  /** When a subscription is created it is the pair asked for, appended after
      the untouched existing rows. */
  lemma CreatedAppendsOneRow(meetups: Meetups, rows: seq<Subscription>, userId: UserId, meetupId: MeetupId, now: Date)
    requires meetupId in meetups && Decide(meetups, rows, userId, meetupId, now).Created?
    ensures Decide(meetups, rows, userId, meetupId, now).subscription == Subscription(userId, meetupId)
    ensures var after := Apply(rows, Decide(meetups, rows, userId, meetupId, now));
      |after| == |rows| + 1 && after[..|rows|] == rows && after[|rows|] == Subscription(userId, meetupId)
  {
  }

  // ---------------------------------------------------------------------------
  // The order of the checks
  // ---------------------------------------------------------------------------

  /** Check `e` fails for this request, looked at on its own. */
  predicate Fails(meetups: Meetups, rows: seq<Subscription>, userId: UserId, meetupId: MeetupId, now: Date, e: Error)
    requires meetupId in meetups
  {
    match e
    case OwnMeetup => meetups[meetupId].organizer == userId
    case PastMeetup => Past(meetups[meetupId], now)
    case AlreadySubscribed => Subscription(userId, meetupId) in rows
    case SameTime =>
      exists other :: other in meetups && meetups[other].date == meetups[meetupId].date &&
        Subscription(userId, other) in rows
  }

  /** The position of each check in `store`. */
  function Rank(e: Error): nat
  {
    match e
    case OwnMeetup => 0
    case PastMeetup => 1
    case AlreadySubscribed => 2
    case SameTime => 3
  }

  /** The two joined `findOne` queries of `store` agree with the plain
      conditions of `Fails`. */
  lemma QueriesMeanFails(meetups: Meetups, rows: seq<Subscription>, userId: UserId, meetupId: MeetupId, now: Date)
    requires meetupId in meetups
    ensures AnyMatch(meetups, rows, userId, MeetupIs(meetupId))
      <==> Fails(meetups, rows, userId, meetupId, now, AlreadySubscribed)
    ensures AnyMatch(meetups, rows, userId, DateIs(meetups[meetupId].date))
      <==> Fails(meetups, rows, userId, meetupId, now, SameTime)
  {
  }

  /** `store` rejects with `e` exactly when check `e` fails and every check
      before it passes, and creates a row exactly when no check fails. */
  lemma {:induction false} FirstFailingCheckDecides(meetups: Meetups, rows: seq<Subscription>, userId: UserId, meetupId: MeetupId, now: Date, e: Error)
    requires meetupId in meetups
    ensures Decide(meetups, rows, userId, meetupId, now) == Rejected(e) <==>
      Fails(meetups, rows, userId, meetupId, now, e) &&
      forall d :: Rank(d) < Rank(e) ==> !Fails(meetups, rows, userId, meetupId, now, d)
    ensures Decide(meetups, rows, userId, meetupId, now).Created? <==>
      forall d :: !Fails(meetups, rows, userId, meetupId, now, d)
  {
    QueriesMeanFails(meetups, rows, userId, meetupId, now);
    var outcome := Decide(meetups, rows, userId, meetupId, now);
    if outcome == Rejected(e) {
      forall d | Rank(d) < Rank(e) ensures !Fails(meetups, rows, userId, meetupId, now, d) {
        match d
        case OwnMeetup =>
        case PastMeetup =>
        case AlreadySubscribed =>
        case SameTime =>
      }
    }
    if outcome.Created? {
      forall d ensures !Fails(meetups, rows, userId, meetupId, now, d) {
        match d
        case OwnMeetup =>
        case PastMeetup =>
        case AlreadySubscribed =>
        case SameTime =>
      }
    }
    var own := Fails(meetups, rows, userId, meetupId, now, OwnMeetup);
    var past := Fails(meetups, rows, userId, meetupId, now, PastMeetup);
    var twice := Fails(meetups, rows, userId, meetupId, now, AlreadySubscribed);
    var clash := Fails(meetups, rows, userId, meetupId, now, SameTime);
    assert outcome == if own then Rejected(OwnMeetup) else if past then Rejected(PastMeetup)
      else if twice then Rejected(AlreadySubscribed) else if clash then Rejected(SameTime)
      else Created(Subscription(userId, meetupId));
  }

  // ---------------------------------------------------------------------------
  // Invariants kept by a successful store
  // ---------------------------------------------------------------------------

  /** `store` only ever adds rows that refer to an existing meetup. */
  lemma StoreKeepsReferenced(meetups: Meetups, rows: seq<Subscription>, userId: UserId, meetupId: MeetupId, now: Date)
    requires meetupId in meetups && Referenced(meetups, rows)
    ensures Referenced(meetups, Apply(rows, Decide(meetups, rows, userId, meetupId, now)))
  {
  }

  /** If no user was booked twice at one date before `store`, none is after:
      the row it adds passed the same-date check. */
  lemma StoreKeepsNoDoubleBooking(meetups: Meetups, rows: seq<Subscription>, userId: UserId, meetupId: MeetupId, now: Date)
    requires meetupId in meetups && NoDoubleBooking(meetups, rows)
    ensures NoDoubleBooking(meetups, Apply(rows, Decide(meetups, rows, userId, meetupId, now)))
  {
  }

  /** `store` never adds a `(user_id, meetup_id)` pair that is already there:
      the row it adds passed the duplicate check against every row, because
      the checked meetup exists. */
  lemma StoreKeepsNoDuplicatePairs(meetups: Meetups, rows: seq<Subscription>, userId: UserId, meetupId: MeetupId, now: Date)
    requires meetupId in meetups && NoDuplicatePairs(rows)
    ensures NoDuplicatePairs(Apply(rows, Decide(meetups, rows, userId, meetupId, now)))
  {
  }

  /** In a table whose rows all refer to existing meetups, "never booked twice
      at one date" rules out duplicate pairs: a duplicate would be two rows
      at the same date. */
  lemma NoDoubleBookingHasNoDuplicates(meetups: Meetups, rows: seq<Subscription>)
    requires Referenced(meetups, rows) && NoDoubleBooking(meetups, rows)
    ensures NoDuplicatePairs(rows)
  {
  }

  // ---------------------------------------------------------------------------
  // Consequences for a sequence of requests
  // ---------------------------------------------------------------------------

  /** Repeating a successful subscription is refused as a duplicate, at any
      later time at which the meetup is still not past. */
  lemma {:induction false} RepeatRejected(meetups: Meetups, rows: seq<Subscription>, userId: UserId, meetupId: MeetupId, now: Date, later: Date)
    requires meetupId in meetups && Decide(meetups, rows, userId, meetupId, now).Created?
    requires !Past(meetups[meetupId], later)
    ensures var after := Apply(rows, Decide(meetups, rows, userId, meetupId, now));
      Decide(meetups, after, userId, meetupId, later) == Rejected(AlreadySubscribed)
  {
    var after := rows + [Subscription(userId, meetupId)];
    assert Matches(meetups, userId, MeetupIs(meetupId), after[|rows|]);
  }

  /** After a successful subscription, another meetup at the same date (not
      organised by the subscriber, not past) is refused as a schedule clash. */
  lemma {:induction false} SameTimeAfterCreated(meetups: Meetups, rows: seq<Subscription>, userId: UserId, first: MeetupId, second: MeetupId, now: Date, later: Date)
    requires first in meetups && Decide(meetups, rows, userId, first, now).Created?
    requires second in meetups && second != first
    requires meetups[second].date == meetups[first].date
    requires meetups[second].organizer != userId && !Past(meetups[second], later)
    ensures var after := Apply(rows, Decide(meetups, rows, userId, first, now));
      Decide(meetups, after, userId, second, later) == Rejected(SameTime)
  {
    var after := rows + [Subscription(userId, first)];
    assert Matches(meetups, userId, DateIs(meetups[second].date), after[|rows|]);
    forall i | 0 <= i < |after| ensures !Matches(meetups, userId, MeetupIs(second), after[i]) {
      if i < |rows| {
        assert after[i] == rows[i];
        assert !Matches(meetups, userId, DateIs(meetups[first].date), rows[i]);
      }
    }
  }

  /** A subscription just created shows up in the subscriber's listing
      exactly when its meetup lies strictly after the time of the listing. A
      meetup dated exactly `now` can be joined but is not listed. */
  lemma CreatedIsListedIfUpcoming(meetups: Meetups, rows: seq<Subscription>, userId: UserId, meetupId: MeetupId, now: Date, later: Date)
    requires meetupId in meetups && Decide(meetups, rows, userId, meetupId, now).Created?
    ensures var after := Apply(rows, Decide(meetups, rows, userId, meetupId, now));
      Subscription(userId, meetupId) in Upcoming(meetups, after, userId, later) <==> meetups[meetupId].date > later
  {
    var s := Subscription(userId, meetupId);
    var listed := Upcoming(meetups, rows + [s], userId, later);
    assert multiset(rows + [s])[s] > 0;
    assert s in listed <==> multiset(listed)[s] > 0;
  }

  /** Distinct rejections carry distinct messages. */
  lemma MessagesDistinct(e: Error, d: Error)
    requires e != d
    ensures Message(e) != Message(d)
  {
  }
}
