/** `SubscriptionController`: the two request handlers over the persisted
    meetups and subscriptions tables. The tables are the fields of a
    `Database` object; `Store` changes only the subscriptions table. */
module SubscriptionController {
  import opened Tables
  import opened SubscriptionRules

  class Database {
    var meetups: Meetups
    var subscriptions: seq<Subscription>

    /** The table invariants the subscription rules exist for: every row
        refers to an existing meetup, and no user is booked twice at one
        date. */
    predicate Valid()
      reads this
    {
      Referenced(meetups, subscriptions) && NoDoubleBooking(meetups, subscriptions)
    }

    constructor (meetups: Meetups)
      ensures this.meetups == meetups && subscriptions == []
      ensures Valid()
    {
      this.meetups := meetups;
      subscriptions := [];
    }

    /** `index`: the caller's subscriptions to meetups strictly after `now`,
        in non-decreasing order of meetup date. Every such row appears as
        often as it does in the table, and no other row appears. */
    function Index(userId: UserId, now: Date): (r: seq<Subscription>)
      reads this
      ensures forall s ::
        multiset(r)[s] == if IsUpcoming(meetups, userId, now, s) then multiset(subscriptions)[s] else 0
      ensures forall i :: 0 <= i < |r| ==>
        r[i].userId == userId && r[i].meetupId in meetups && DateOf(meetups, r[i]) > now
      ensures forall i, j :: 0 <= i <= j < |r| ==> DateOf(meetups, r[i]) <= DateOf(meetups, r[j])
    {
      var upcoming := Upcoming(meetups, subscriptions, userId, now);
      var r := SortByDate(meetups, upcoming);
      assert forall i :: 0 <= i < |r| ==> r[i] in multiset(upcoming);
      SortedByDateAllPairs(meetups, r);
      r
    }

    /** `store`: the ordered checks of `Decide`, each answered as soon as it
        fails, then the insert of one row. The meetup must exist. */
    method Store(userId: UserId, meetupId: MeetupId, now: Date) returns (outcome: Outcome)
      requires meetupId in meetups
      modifies this`subscriptions
      ensures outcome == Decide(meetups, old(subscriptions), userId, meetupId, now)
      ensures subscriptions == Apply(old(subscriptions), outcome)
      ensures outcome.Created? ==> subscriptions == old(subscriptions) + [Subscription(userId, meetupId)]
      ensures outcome.Rejected? ==> subscriptions == old(subscriptions)
      ensures old(Valid()) ==> Valid()
    {
      ghost var wasValid := Valid();
      if wasValid {
        StoreKeepsReferenced(meetups, subscriptions, userId, meetupId, now);
        StoreKeepsNoDoubleBooking(meetups, subscriptions, userId, meetupId, now);
      }

      var meetup := meetups[meetupId];
      if meetup.organizer == userId {
        return Rejected(OwnMeetup);
      }
      if Past(meetup, now) {
        return Rejected(PastMeetup);
      }
      var meetupSubscribed := FindOne(meetups, subscriptions, userId, MeetupIs(meetupId));
      if meetupSubscribed.Some? {
        return Rejected(AlreadySubscribed);
      }
      var meetupDate := FindOne(meetups, subscriptions, userId, DateIs(meetup.date));
      if meetupDate.Some? {
        return Rejected(SameTime);
      }
      var subscription := Subscription(userId, meetupId);
      subscriptions := subscriptions + [subscription];
      return Created(subscription);
    }
  }

  /** The walk-through of the subscription rules with three users: A
      organises M1 (tomorrow); B joins M1, then tries again; C, already in M2
      at the same hour, tries to join M1. */
  method Scenario() returns (own: Outcome, joined: Outcome, again: Outcome, clash: Outcome)
    ensures own == Rejected(OwnMeetup)
    ensures joined == Created(Subscription(2, 1))
    ensures again == Rejected(AlreadySubscribed)
    ensures clash == Rejected(SameTime)
  {
    var a, b, c, d := 1, 2, 3, 4;
    var now, tomorrow := 100, 200;
    var db := new Database(map[1 := Meetup(a, tomorrow), 2 := Meetup(d, tomorrow)]);
    var earlier := db.Store(c, 2, now);
    assert earlier.Created? && db.subscriptions == [Subscription(c, 2)];
    own := db.Store(a, 1, now);
    assert db.subscriptions == [Subscription(c, 2)];
    assert !Matches(db.meetups, b, MeetupIs(1), db.subscriptions[0]);
    assert !Matches(db.meetups, b, DateIs(tomorrow), db.subscriptions[0]);
    joined := db.Store(b, 1, now);
    assert db.subscriptions == [Subscription(c, 2), Subscription(b, 1)];
    assert Matches(db.meetups, b, MeetupIs(1), db.subscriptions[1]);
    again := db.Store(b, 1, now);
    clash := db.Store(c, 1, now);
    assert Matches(db.meetups, c, DateIs(tomorrow), db.subscriptions[0]);
  }
}
