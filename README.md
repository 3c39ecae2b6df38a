# Meetup subscriptions

A model of the subscription controller of the meetapp backend
(`src/app/controllers/SubscriptionController.js`). That controller has two
request handlers:

- `store` lets a user join a meetup. It runs four checks in a fixed order:
  the user does not organise the meetup, the meetup is not past, the user has
  not already joined it, and the user holds no meetup at the very same date.
  The first failing check answers HTTP 400 with its own message. When all
  pass, one `{user_id, meetup_id}` row is inserted into the subscriptions
  table.
- `index` lists the caller's subscriptions to meetups strictly after now,
  ascending by meetup date.

The project has three modules, one file each:

- `Tables` (`tables.dfy`): the meetup and subscription records, and the ORM
  queries the controller issues. `FindOne` is `Subscription.findOne` with an
  inner join on Meetup. `Upcoming` and `SortByDate` are the `where` and
  `order` parts of `Subscription.findAll`. A meetup keeps only the two columns
  the controller reads, its organiser (`user_id`) and its `date`. Dates are
  integers and "now" is a parameter.
- `SubscriptionRules` (`rules.dfy`): `Decide`, the outcome of `store` as a
  function of the two tables, the error messages, the table invariants, and
  the lemmas about them. The lemmas cover each check on its own, the
  precedence of the checks, preservation of the invariants, and what happens
  when requests follow each other.
- `SubscriptionController` (`controller.dfy`): a `Database` class with the
  two tables as fields. `Index` is a function that reads them. `Store` is a
  method that changes only the subscriptions table. It is proved to answer
  what `Decide` answers and to keep `Valid()`.

Modelling choices:

- The meetup must exist (`requires meetupId in meetups`). The source reads
  `meetup.user_id` from the `findByPk` result with no not-found guard, so a
  missing meetup throws. The model does not invent a not-found answer.
- `meetup.past` is taken as `date < now`. `index` keeps `date > now`, so a
  meetup dated exactly now can be joined but is not listed
  (`CreatedIsListedIfUpcoming`).
- Both `findOne` queries and the `findAll` use `required: true`, which is an
  inner join. So a row only matches when its meetup exists.
- SQL gives no row order to `findOne`, so `FindOne` promises only "some
  matching row". `ORDER BY date` gives no order among equal dates, so
  `SortByDate` promises only "sorted, same rows".
- The row is inserted with `req.params.meetupId` while the checks use the
  looked-up `meetup.id`. Both are the same meetup key in the model.
- Requests are atomic: a check and the insert that follows it form one step.
- The organiser check (`SubscriptionController.js:39`) runs before the past
  check (`:48`), so the organiser of a past meetup gets the own-meetup error.
  `PastMeetupRejected` therefore requires a subscriber other than the
  organiser.

## Model

| member | source | states |
|---|---|---|
| Tables.FindOne | src/app/controllers/SubscriptionController.js:57-94 | returns a row of the table that belongs to the user, whose meetup exists and satisfies the meetup filter; returns nothing exactly when no row does |
| Tables.Upcoming | src/app/controllers/SubscriptionController.js:10-24 | keeps every copy of each of the user's rows whose meetup exists and is dated strictly after now, and nothing else |
| Tables.SortByDate | src/app/controllers/SubscriptionController.js:25 | returns the same rows (as a multiset), each dated no later than the next |
| Tables.SortedByDateAllPairs | src/app/controllers/SubscriptionController.js:25 | in such a sequence every row is dated no later than every row after it |
| SubscriptionController.Database.Index | src/app/controllers/SubscriptionController.js:9-28 | the listing holds exactly the caller's rows with a meetup strictly after now, each as often as in the table, every row dated no later than every later row; it reads the tables and changes nothing |
| SubscriptionController.Database.Store | src/app/controllers/SubscriptionController.js:31-117 | answers exactly what the ordered checks decide, appends the one row `(user, meetup)` on success and leaves the table untouched on rejection, and keeps the table invariants |
| SubscriptionController.Scenario | src/app/controllers/SubscriptionController.js:31-108 | organiser refused, second user joins, repeat refused as a duplicate, a user booked at the same hour refused as a clash |
| SubscriptionRules.Decide | src/app/controllers/SubscriptionController.js:32-108 | the outcome of `store`: a created row is the requested `(user, meetup)` pair and is only created for another user's non-past meetup that the user holds no row of at that date; fully characterised by FirstFailingCheckDecides |
| SubscriptionRules.Apply | src/app/controllers/SubscriptionController.js:102-108 | the table after an outcome: existing rows stay as the prefix, and exactly one row (the created one) is added on success, none on rejection |
| SubscriptionRules.Past | src/app/controllers/SubscriptionController.js:48 | the derived `past` field, taken as `date < now`; definition, no contract |
| SubscriptionRules.Message | src/app/controllers/SubscriptionController.js:40-99 | the four error strings of the 400 responses; definition, no contract; distinctness in MessagesDistinct |
| SubscriptionRules.OwnMeetupRejected | src/app/controllers/SubscriptionController.js:39-43 | the organiser is refused with the own-meetup error and nothing is written |
| SubscriptionRules.PastMeetupRejected | src/app/controllers/SubscriptionController.js:48-52 | another user's request for a past meetup is refused with the past-meetup error and nothing is written |
| SubscriptionRules.DuplicateRejected | src/app/controllers/SubscriptionController.js:57-76 | a user already holding the meetup is refused as a duplicate, even though the same-date query would also match |
| SubscriptionRules.SameTimeRejected | src/app/controllers/SubscriptionController.js:81-100 | a user holding another meetup at the identical date is refused with the same-time error and nothing is written |
| SubscriptionRules.CreatedAppendsOneRow | src/app/controllers/SubscriptionController.js:102-108 | on success the created row is `(user, meetup)`, the table grows by one and the old rows are unchanged as its prefix |
| SubscriptionRules.QueriesMeanFails | src/app/controllers/SubscriptionController.js:57-94 | the two joined queries match exactly when the user holds this meetup, and exactly when the user holds some existing meetup at the same date |
| SubscriptionRules.FirstFailingCheckDecides | src/app/controllers/SubscriptionController.js:39-100 | the answer is error `e` exactly when check `e` fails and every earlier check passes (order own, past, duplicate, same time); a row is created exactly when no check fails |
| SubscriptionRules.StoreKeepsReferenced | src/app/controllers/SubscriptionController.js:102-108 | if every row refers to an existing meetup before `store`, so does every row after |
| SubscriptionRules.StoreKeepsNoDoubleBooking | src/app/controllers/SubscriptionController.js:81-108 | if no user holds two meetups at one date before `store`, none does after |
| SubscriptionRules.StoreKeepsNoDuplicatePairs | src/app/controllers/SubscriptionController.js:57-108 | if no `(user, meetup)` pair occurs twice before `store`, none does after |
| SubscriptionRules.NoDoubleBookingHasNoDuplicates | src/app/controllers/SubscriptionController.js:57-100 | in a table whose rows all refer to existing meetups, having no double booking implies having no duplicate pair |
| SubscriptionRules.RepeatRejected | src/app/controllers/SubscriptionController.js:57-108 | after a successful `store`, the same request is refused as a duplicate at any time the meetup is not yet past |
| SubscriptionRules.SameTimeAfterCreated | src/app/controllers/SubscriptionController.js:81-108 | after a successful `store`, a request for a different meetup at the same date (not own, not past) is refused as a clash |
| SubscriptionRules.CreatedIsListedIfUpcoming | src/app/controllers/SubscriptionController.js:10-24 | a just-created subscription is in the subscriber's listing exactly when its meetup is strictly after the listing time |
| SubscriptionRules.MessagesDistinct | src/app/controllers/SubscriptionController.js:40-99 | the four rejections carry four different error messages |

## Left out

- The user lookup and notification enqueue after an insert (`User.findByPk` and `Queue.add` of the subscription mail) are left out. On success they do not change the answer. A failure of any awaited query, of the insert or of the enqueue throws and is not modelled; a failure after the insert leaves the row in place, so a retry gets the duplicate error.
- HTTP plumbing is left out. Each rejection is an `Error` value with its message (`Message`); the status is 400 for all of them and is not modelled.
- The not-found case of the meetup lookup is a precondition of `Store` and `Decide`, since the source has no answer for it (it throws).
- Concurrent requests are left out. The check-then-insert race between two simultaneous `store` calls is outside a sequential model, and the invariants are proved for atomic requests only.
- Clock and `Date` semantics are left out. Dates and "now" are integers.
- Route wiring (`src/routes.js`), database set-up (`src/database/index.js`) and the ORM schema (`src/app/models/Subscription.js`) are left out. They carry no logic; the schema's two foreign keys give the shape of `Subscription`. A row's own primary key `id` and its `createdAt`/`updatedAt` timestamps, which the ORM adds by default and which the created response and the listing return, are not modelled.
- The `delete` handler routed to this controller is not part of this model; its code is not in the controller file.
- Meetup columns other than organiser and date (title, description, location, banner) are left out. The controller never reads them.
