# Marathon registration server: a Dafny model

This project models the core of a REST backend for marathon listings and
registrations. Organizers publish marathons with a registration window.
Participants register, edit their personal fields and cancel. Each marathon
keeps a denormalized counter, `totalRegistrations`, that should equal its
number of active (not cancelled) registrations.

The document store is a class, `Store.Store`, holding two maps: id → Marathon
and id → Registration. Every handler that writes is a method on it, and each
runs as one atomic step. Handlers answer with an `Outcome`: `Ok(value)`,
`NotFound` (404), `Forbidden` (403) or `BadRequest(reason)` (400). Read
handlers are pure functions over a collection in natural (insertion) order.

Modules, following the source files:

- `Common`: identities, `Option`, `Outcome` and the 400 reasons.
- `MarathonModel` (models/Marathon.js): the Marathon document, its validation, and the pre('save') and pre('findOneAndUpdate') hooks.
- `RegistrationModel` (models/Registration.js): the Registration document, the `status` and `paymentStatus` enums with their defaults, and validation.
- `DateWindow` (marathonController.js): the first-violation-wins date rules for creation and update.
- `Listing`: the cursor operations the queries are made of (filter, stable sort, limit) and case-insensitive matching.
- `MarathonQueries`, `RegistrationQueries`: the read handlers of the two controllers.
- `Counters`: the two cross-entity invariants and the lemmas showing that create, cancel and field update preserve them.
- `Requests`: what the write handlers build from a request body.
- `Store`: the store and the six write handlers.

Caller identity is an input, either a string or a `Caller(email, name)` taken
from the verified token. The current time is the input `now`. Timestamps are
integers. A JavaScript Date that is missing or unparsable is
`DateWindow.InvalidDate`, and every comparison with it is false, as in
JavaScript.

Three points where the source's behaviour differs from what one might expect of such a server, and the model follows the source:

- A duplicate registration is answered with 400 (`AlreadyRegistered`), not with a separate conflict error.
- `organizer` is not immutable. `Object.assign` in updateMarathon overwrites any supplied path, including `organizer` and `totalRegistrations`. For this reason, "counter equals active count" is a separate predicate (`Consistent`) and not part of the store invariant `Valid`. `UpdateMarathon` preserves it only when the patch leaves the counter alone.
- Mongoose runs schema validation before user pre('save') hooks. So a document with a negative counter is rejected at `save()` (400) before the clamp can run. `MarathonModel.Save` states this: what it stores is the validated document itself. The clamp in findByIdAndUpdate does run, because update validators are off.

## Model

| member | source | states |
|---|---|---|
| MarathonModel.PreSave | server/src/models/Marathon.js:58-63 | the saved counter is never negative; a negative one becomes 0 and a non-negative one is left alone (so the hook is idempotent); no other field changes |
| MarathonModel.Save | server/src/models/Marathon.js:3-55 | save succeeds exactly when every required string is non-empty and the counter is a non-negative integer; a document that passes is stored unchanged by the hook; otherwise 400 |
| MarathonModel.PreFindOneAndUpdate | server/src/models/Marathon.js:66-72 | a direct update that sets a negative counter is changed to set 0; a non-negative one and an `$inc` update pass through unchanged |
| MarathonModel.ApplyCounterUpdate | server/src/controllers/registrationController.js:157-159 | findByIdAndUpdate on the counter changes only the counter: an increment adds its amount; a replacement stores max(0, value) |
| RegistrationModel.ParseStatus | server/src/models/Registration.js:32-36 | a status string is accepted exactly when it names one of pending, confirmed or cancelled, and is parsed to the value it names |
| RegistrationModel.ParsePaymentStatus | server/src/models/Registration.js:41-45 | a payment status string is accepted exactly when it names one of pending, completed or failed, and is parsed to the value it names |
| DateWindow.CheckCreate | server/src/controllers/marathonController.js:69-79 | first violation wins: start in the past, then end not after start, then race not after end; with three valid dates it passes exactly when now <= start < end < race |
| DateWindow.CheckUpdate | server/src/controllers/marathonController.js:113-119 | passes exactly when start < end < race; end <= start reports that rule first; now plays no part |
| DateWindow.Merge | server/src/controllers/marathonController.js:109-111 | the corrected merge: a supplied date (0 included) overrides the stored one, and an absent one keeps it; the source's falsy-0 form is Requests.MergeAsWritten |
| Listing.ContainsIgnoreCase | server/src/controllers/marathonController.js:153-155 | true exactly when the pattern occurs at some offset of the text, ignoring ASCII case |
| Listing.SortBy | server/src/controllers/marathonController.js:6 | the result is sorted by the key and is a permutation of the input |
| Listing.Filter | server/src/controllers/marathonController.js:17 | keeps exactly the elements that satisfy the predicate, each no more often than the input has it |
| Listing.SortByStable | server/src/controllers/marathonController.js:42 | the sort is stable: for every key value, the elements with that key come out in the order they went in |
| Listing.Take | server/src/controllers/marathonController.js:32 | `limit(n)` keeps the first min(n, length) elements in order, each no more often than the input has it |
| Listing.TakeOfSorted | server/src/controllers/marathonController.js:28-32 | the first n of a sort keep the n smallest, are sorted, and are a sub-multiset of the input: no omitted element has a smaller key than a taken one, and when fewer than n are taken, every element is taken |
| MarathonQueries.AllMarathons | server/src/controllers/marathonController.js:6 | every marathon, as a permutation of the collection, with createdAt non-increasing |
| MarathonQueries.ByOrganizer | server/src/controllers/marathonController.js:17 | exactly the marathons whose organizer equals the email, with createdAt non-increasing |
| MarathonQueries.Upcoming | server/src/controllers/marathonController.js:27-32 | at most 6 marathons, all with race date >= now, each no more often than stored, sorted ascending by race date; no omitted upcoming marathon is sooner than an included one; with fewer than 6, all upcoming marathons are included |
| MarathonQueries.Featured | server/src/controllers/marathonController.js:42 | at most 6 marathons, each no more often than stored, sorted by totalRegistrations descending; no omitted marathon has more registrations than an included one; with fewer than 6, all are included |
| MarathonQueries.SearchByTitle | server/src/controllers/marathonController.js:153-155 | exactly the marathons whose title contains the pattern, ignoring case |
| MarathonQueries.GetMarathon | server/src/controllers/marathonController.js:52-56 | the stored document when the id exists, NotFound otherwise |
| RegistrationQueries.CheckRegistration | server/src/controllers/registrationController.js:177-187 | Forbidden exactly when the path email differs from the caller's; otherwise true exactly when an active registration exists for (marathon, email) |
| RegistrationQueries.Joined | server/src/controllers/registrationController.js:16-43 | a row appears exactly when it is the projection of a registration by the email that is not cancelled and whose marathon still exists, joined with that marathon; when the registrations come in increasing id order, so do the rows, so each registration gives at most one row |
| RegistrationQueries.UserRegistrations | server/src/controllers/registrationController.js:12-49 | Forbidden exactly when the email is not the caller's; otherwise the rows of the caller's active registrations with an existing marathon whose title matches the search (absent or empty search matches all), newest registrationDate first; over a collection in natural order no row appears twice |
| Counters.ActiveCountUpdate | server/src/controllers/registrationController.js:84-89 | writing a registration under an id changes a marathon's active count by the new document's contribution minus the old one's |
| Counters.ActiveCountPositive | server/src/controllers/registrationController.js:155-156 | a marathon with an active registration has an active count of at least 1 |
| Counters.ActiveCountUnreferenced | server/src/controllers/marathonController.js:81-88 | a marathon that no registration refers to has active count 0, which matches a new marathon's counter of 0 |
| Counters.InsertKeepsConsistent | server/src/controllers/registrationController.js:77-89 | from a consistent store, inserting an active registration and incrementing its marathon's counter leaves every counter equal to its active count |
| Counters.CancelKeepsConsistent | server/src/controllers/registrationController.js:146-159 | from a consistent store, cancelling an active registration and setting its marathon's counter to max(0, total-1) keeps every counter equal to its active count; the floor never applies; without the marathon, no other counter is affected |
| Counters.RewriteKeepsConsistent | server/src/controllers/registrationController.js:112-119 | rewriting a registration without changing its marathon or status keeps every counter equal to its active count |
| Counters.InsertKeepsUnique | server/src/controllers/registrationController.js:67-84 | inserting an active registration only when its pair has no active one keeps at most one active registration per (marathon, email) |
| Counters.CancelKeepsUnique | server/src/controllers/registrationController.js:146-147 | cancelling keeps at most one active registration per pair |
| Requests.NewMarathon | server/src/controllers/marathonController.js:81-88 | the new marathon succeeds exactly when every required field is present and non-empty; it then has the caller as organizer, counter 0, createdAt = now and the body's fields and dates |
| Requests.CheckPatchDates | server/src/controllers/marathonController.js:108-120 | the corrected guard of the second Findings row, in which a supplied 0 counts as supplied: with no date supplied, nothing is checked; otherwise the check passes exactly when the merged dates satisfy start < end < race |
| Requests.Assign | server/src/controllers/marathonController.js:122 | `Object.assign` overwrites every supplied path, organizer and counter included, and keeps every path left out; the dates are the supplied ones merged over the stored ones; an empty patch changes nothing |
| Requests.AssignThen | server/src/controllers/marathonController.js:122 | two assigns in a row equal one assign of the later patch over the earlier, so assigning a patch twice is assigning it once |
| Requests.UpdatedMarathon | server/src/controllers/marathonController.js:107-123 | a date violation is reported first; otherwise the assigned document is saved when it validates, and a validation failure is 400 ValidationFailed; a saved update that touched a date stores dates in order, a marathon whose dates were in order keeps them in order, and an untouched counter keeps its value |
| Requests.MergeAsWritten | server/src/controllers/marathonController.js:109-111 | `new Date(body.x or stored.x)` with JavaScript's logical or: a truthy supplied date is used and a falsy one (0) falls back to the stored date |
| Requests.UpdatedMarathonAsWritten | server/src/controllers/marathonController.js:107-123 | the source's update: when some supplied date is truthy, the dates merged with JavaScript's logical or are checked, end <= start and then race <= end giving 400 with that reason, and otherwise the assigned document is saved exactly when it validates; when no supplied date is truthy, no date is checked and the assigned document is saved whenever it validates; without supplied dates it agrees with the model's update |
| Requests.AsWrittenZeroDateUnordersDates | server/src/controllers/marathonController.js:107-123 | on a marathon with ordered dates, the as-written update with race date 0 succeeds and stores dates out of order, while the model's update answers RaceNotAfterEnd |
| Requests.BodyPaymentStatus | server/src/models/Registration.js:41-45 | an absent payment status defaults to pending; a supplied one is parsed against the enum |
| Requests.NewRegistration | server/src/controllers/registrationController.js:77-84 | a new registration takes marathonId from the resolved id and userEmail/userName from the token, whatever the body says; it starts pending, so it is active; registrationDate defaults to now; it validates exactly when the required fields and the token name are present and non-empty and the payment status is an enum value |
| Requests.NewRegistrationAsWritten | server/src/controllers/registrationController.js:77-82 | the source's construction: it succeeds exactly when the model's construction does and a body status, if any, passes the enum check; it gives the same document, except that a body status is kept; without a body status it is the model's document with the default pending; every failure is 400 ValidationFailed |
| Requests.AsWrittenCancelledBodyBreaksCount | server/src/controllers/registrationController.js:77-89 | from a consistent store, an as-written create whose body says "cancelled" stores an inactive registration and increments the counter, so the store is no longer consistent |
| Requests.ApplyAllowed | server/src/controllers/registrationController.js:113-117 | the forEach over the body's keys changes at most firstName, lastName, contactNo and additionalInfo, and a body with no allow-listed key changes nothing |
| Requests.LastValueIsLast | server/src/controllers/registrationController.js:113-117 | the last value found for a key is absent exactly when the key never occurs, and it is the value of the key's last entry otherwise |
| Requests.ApplyAllowedFields | server/src/controllers/registrationController.js:112-117 | the allow-listed update sets firstName, lastName, contactNo and additionalInfo to the last value the body gives for each; every other field stays as it was, including status, userEmail and marathonId |
| Store.Store.MarathonList | server/src/controllers/marathonController.js:6 | the Marathon collection in natural order: exactly the stored documents, each once, with ids increasing |
| Store.Store.RegistrationList | server/src/controllers/registrationController.js:19-20 | the Registration collection in natural order: exactly the stored documents, each once, with ids increasing |
| Store.Store.CreateMarathon | server/src/controllers/marathonController.js:63-93 | a date violation is a 400 with its reason, then a validation failure is 400 ValidationFailed, both changing nothing; on success, exactly one marathon is added, owned by the caller, with counter 0, createdAt = now and now <= start < end < race; consistency preserved |
| Store.Store.UpdateMarathon | server/src/controllers/marathonController.js:96-128 | NotFound before Forbidden, and a failure changes nothing; an owned update has the effect of UpdatedMarathon; only that marathon changes; consistency preserved when the counter is not in the patch |
| Store.Store.DeleteMarathon | server/src/controllers/marathonController.js:131-147 | NotFound before Forbidden, and a failure changes nothing; on success only that marathon is removed, and registrations referring to it are untouched; consistency preserved |
| Store.Store.CreateRegistration | server/src/controllers/registrationController.js:59-95 | a missing marathon gives NotFound, an existing active pair gives 400 AlreadyRegistered, and otherwise a body that fails validation gives 400 ValidationFailed, all leaving the store unchanged; on success exactly one registration is added with the token's identity, its marathon's counter rises by exactly 1 and no other marathon changes; validity (at most one active per pair) and consistency preserved |
| Store.Store.UpdateRegistration | server/src/controllers/registrationController.js:98-124 | NotFound, then Forbidden for a non-owner, and a failure changes nothing; an owned update stores the allow-listed assignment when it validates; status, userEmail, marathonId and every counter are unchanged |
| Store.Store.CancelRegistration | server/src/controllers/registrationController.js:127-169 | NotFound, then Forbidden, then AlreadyCancelled, each leaving the store unchanged; otherwise the registration becomes cancelled; with its marathon present, the counter becomes max(0, total-1) and is returned; with it missing, the answer is NotFound and no counter changes; consistency preserved |

## Findings

| source | as written | input that shows it | evidently intended | confidence | as-written member | corrected member |
|---|---|---|---|---|---|---|
| server/src/controllers/registrationController.js:77-89 | the new registration spreads `req.body`, so a body `status` (validated against the enum) is stored, while the counter is incremented unconditionally | POST /registrations with body `{marathonId: M, firstName, lastName, contactNo, status: "cancelled"}`: stores a cancelled registration and raises M's counter from 0 to 1 with no active registration | a new registration starts `pending` whatever the body says, as the schema default says, so the counter tracks active registrations | high; not executed | Requests.NewRegistrationAsWritten, Requests.AsWrittenCancelledBodyBreaksCount | Requests.NewRegistration (used by Store.Store.CreateRegistration, with Counters.InsertKeepsConsistent) |
| server/src/controllers/marathonController.js:108-122 | the date check is guarded by, and merges with, JavaScript's logical or, so a supplied date of 0 counts as absent there; `Object.assign` then stores that 0 anyway | PATCH /marathons/M on a marathon with dates 10 < 20 < 30 and body `{marathonStartDate: 0}`: answered 200, and the stored race date 0 lies before the end of registration | every supplied date takes part in the date check, so a successful update stores start < end < race | medium; not executed | Requests.UpdatedMarathonAsWritten, Requests.AsWrittenZeroDateUnordersDates | Requests.UpdatedMarathon (used by Store.Store.UpdateMarathon) |

## Left out

- Store.Store.CreateRegistration: it builds the record with the corrected `Requests.NewRegistration`, which ignores a `status` in the body (see Findings). The source's behaviour is `Requests.NewRegistrationAsWritten`.
- HTTP plumbing is not modelled: the Express app, CORS, the Mongo connection, route wiring in server/src/routes/*.js and server/src/index.js, and JWT issuance. The search route binds no `:title` parameter; that is a wiring matter.
- Token verification middleware (server/src/middleware/verifyToken.js) is not part of this model. The verified identity is an input.
- Concurrency is not modelled. Each handler is one atomic step, so check-then-insert races and the read-then-write of the counter in cancel are out of scope.
- Store failures are not modelled: neither the 400 that the catch of createMarathon, updateMarathon, createRegistration and updateRegistrationStatus answers, nor the 500 of the other handlers.
- ObjectId casting is not modelled. Ids are opaque naturals. A malformed id (400 or 500 in the source) and a missing body `marathonId` (which makes a fresh ObjectId, hence 404) are left out.
- Store.Store.UpdateMarathon: it uses the corrected `Requests.UpdatedMarathon`, which checks every supplied date (see Findings). The source's behaviour for a date of 0 is `Requests.UpdatedMarathonAsWritten`.
- Date parsing is reduced to integers and one invalid value. A supplied `""` or `null` date is left out; Mongoose casts both to null, which the required date paths reject at save.
- Regular expressions: `$regex` with option `i` is modelled as a case-insensitive substring match on ASCII letters. Regex metacharacters and non-ASCII case folding are left out.
- JSON values are narrowed to the types of their schema paths: strings for text, integers for dates and the counter. A non-integer or non-numeric counter (floating point) is left out. So are `_id` and unknown keys in a body; Mongoose's strict mode drops unknown keys.
- Response bodies and message strings are not modelled; only the error kind is kept.
- Ties in a sort follow natural order, because the model's sort is stable (`Listing.SortByStable`). MongoDB does not promise an order for ties, so this is a choice of the model, not a promise of the source.
- The two schema hooks change the document in place in the source. They are modelled as functions that return the changed document, because documents are values in the store's maps.
