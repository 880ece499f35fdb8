# Mergington High School activity registry, in Dafny

This project models the data layer and the three endpoints of the Mergington
High School API: a FastAPI service where students look at extracurricular
activities, sign up for them, and unregister from them. It also models the
start-up step that seeds the activity table, and it proves the registry's
business rules about this model.

Files, one Dafny module each:

- `models.dfy` (module `Models`) holds the two tables.
  - Activities: id, unique name, optional description, optional schedule, optional `max_participants`.
  - Participants: id, email, foreign key to an activity.
  - The `Activity.participants` relationship is `EmailsOf`, the emails of the rows whose foreign key is the activity's id.
  - The file also states the integrity rules, the store's id assignment and the insert that fails on the unique name index.
- `db.dfy` (module `Database`) holds the seed list, `SeedIfEmpty` (the start-up step as a function of the store) and the `Store` class.
  - `Store` keeps both tables as fields that its methods update in place.
  - `InitDb` is the start-up step; it calls `AddRows`, the loop that adds the seed rows.
- `app.dfy` (module `Api`) holds `Signup` and `Unregister`, two pure step functions that serve as the specification.
  - The imperative endpoints `SignupForActivity` and `UnregisterFromActivity` act on a `Store` and are proved equal to those step functions.
  - `GetActivities` reads a `Store` with a loop; its contract ties the listing directly to the activity names and to `EmailsOf`, with no step function in between.
  - The file also holds the error responses and the listing view.
- `scenarios.dfy` (module `Scenarios`) holds properties of several requests in a row.
  - Examples: signup then unregister, filling an activity to capacity, one email in several activities.

The invariants are proved, not assumed. What SQLite enforces here is the
primary keys and the unique index on the activity name; `WellFormed` captures
those. The schema also declares a foreign key from a participant to its
activity (`src/models.py:8`), but SQLite checks foreign keys only when a
connection turns them on with `PRAGMA foreign_keys=ON`, and `src/db.py` never
does. So "every participant row points at an activity" (`ReferencesValid`) is
an invariant the endpoints maintain, not a schema rule. The code declares no
constraint on the pair (email, activity) at all, so "no email twice in one
activity" (`NoDuplicateSignups`) is an invariant maintained by signup's check.
The same goes for "no activity over capacity" (`WithinCapacity`).

Points where the model follows the code:

- **Four seeds, not three.** The seeding code adds four activities: Chess Club (12), Programming Class (20), Gym Class (30) and GitHub Skills (25). The tests in `tests/test_db.py` expect three. The model follows the code.
- **Duplicate check before capacity check.** Signup checks the duplicate email first, so an email already on a full activity's roster gets "already signed up", not "full".
- **Unregister can fail with a server error.** Unregister looks the row up with `one_or_none()`, which raises when more than one row matches. The model returns `MultipleRowsFound` (HTTP 500) in that case. `UnregisterNeverMultipleRows` proves this cannot happen while `NoDuplicateSignups` holds.
- **Ids.** The store gives a new row the largest id in use plus one. SQLite assigns `INTEGER PRIMARY KEY` values this way as long as the largest id is below 2^63 - 1; the cap is listed under "Left out".
- **Start-up does not require clean data.** `init_db` seeds whatever the database file holds, so `InitDb` has no precondition on the participant rows. Participant rows left over without an activity are not removed. Those pointing at id 1 join the roster of Chess Club, the first seeded activity (`OrphanRowsJoinChessClub`). This is why "within capacity" is kept by seeding only when the foreign keys were valid.

## Model

| member | source | states |
|---|---|---|
| Models.EmailsOf | src/models.py:18 | the `Activity.participants` relationship: the emails of the rows whose foreign key is the activity's id; its meaning is stated by `EmailsOfMembership`, `EmailsOfConcat` and `RemoveAtEmails` |
| Models.EmailsOfConcat | src/models.py:18 | the roster of two blocks of participant rows is the roster of the first followed by the roster of the second |
| Models.EmailsOfMembership | src/models.py:5-8 | an email is on an activity's roster iff some participant row pairs that email with that activity's id |
| Models.MatchingRows | src/app.py:100-103 | the query for (activity id, email) returns the indices of exactly the matching participant rows |
| Models.MatchingRowsCount | src/app.py:100-103 | the number of matching rows equals the number of times the email appears on the activity's roster |
| Models.RemoveAt | src/app.py:107 | deleting a row leaves every other row, in order, and one row fewer |
| Models.RemoveAtEmails | src/app.py:107 | deleting a row of an activity removes one occurrence of its email from that activity's roster and leaves every other roster unchanged |
| Models.FindByName | src/app.py:68-69 | the name query finds a row with that name if there is one, and reports none only when no row has the name |
| Models.Lookup | src/app.py:68-69 | the name query: a row it returns is a stored row with that name, and it returns none only when no stored row has the name |
| Models.Roster | src/models.py:18 | the emails registered for the activity called `name`, empty when there is none; its meaning is stated by `SignupOutcomes`, `SignupAddsExactlyThatEmail` and `UnregisterRemovesExactlyThatEmail` |
| Models.Capacity | src/models.py:17 | the `max_participants` of the activity called `name`, none when unlimited or absent; its meaning is stated by `SignupOutcomes` and `SeedCapacities` |
| Models.LookupFinds | src/models.py:14 | with unique names, looking up the name of any stored activity returns exactly that activity |
| Models.SameIdSameRow | src/models.py:13 | with unique ids, two stored activities with the same id are the same row, and conversely |
| Models.NoActivitiesNoParticipants | src/models.py:8 | with valid foreign keys, an empty activity table means an empty participant table |
| Models.NoDuplicatesAtMostOnce | src/app.py:103 | without duplicate signups, an email appears at most once on any roster |
| Models.MaxId | src/models.py:6 | the largest id bounds every id, is 0 for no rows, and is one of the ids otherwise |
| Models.NewActivityId | src/models.py:13 | a new activity id is at least 1 and larger than every stored activity id |
| Models.NewParticipantId | src/models.py:6 | a new participant id is at least 1 and larger than every stored participant id |
| Models.Insert | src/models.py:12-18 | inserting fails iff the name is taken; otherwise the row gets a fresh id of at least 1 and keeps its fields, the existing rows and the participants are untouched, and looking the name up finds the new row |
| Models.AddRow | src/db.py:64 | adding an activity row to the session leaves the participants alone and adds one row; `AddRowKeys` states that it adds exactly the new id and name |
| Models.AddRowKeepsWellFormed | src/models.py:13-14 | adding a row whose name is new keeps ids and names unique |
| Models.AddRowKeys | src/models.py:13-14 | adding a row adds exactly its id to the set of ids and its name to the set of names |
| Models.InsertKeepsWellFormed | tests/test_db.py:65-81 | a successful insert keeps the schema's rules, and inserting another activity with the same name then fails |
| Models.RostersPartitionParticipants | src/models.py:8-9 | with unique ids and valid foreign keys, the roster sizes of all activities add up to the number of participant rows: each participant belongs to exactly one activity |
| Database.AddAll | src/db.py:57-64 | the seed loop as a function: the participants are untouched and one row is added per element; `AddAllOnEmpty` states the ids and fields |
| Database.SeedIfEmpty | src/db.py:21-66 | the start-up rule: the participants are never touched, a store with activities is returned as it is, and an empty activity table gets one row per seed; `SeedOnEmptyStore`, `SeedIdempotent` and the other `Seed` lemmas state the rest |
| Database.AddAllOnEmpty | src/db.py:57-66 | rows added to an empty activity table are numbered 1, 2, ... and carry exactly the given fields; participants are untouched |
| Database.SeedNamesDistinct | src/db.py:30-55 | the four seed names are pairwise distinct |
| Database.SeedOnEmptyStore | src/db.py:21-66 | seeding an empty activity table yields exactly the four seed rows, with ids 1 to 4 in list order and participants untouched |
| Database.SeedNames | src/db.py:30-55 | after seeding, the activity names are exactly Chess Club, Programming Class, Gym Class and GitHub Skills |
| Database.SeedCapacities | src/db.py:35-53 | after seeding, the capacities are 12, 20, 30 and 25 |
| Database.SeedOnNonEmptyStore | src/db.py:26-28 | a store that already has an activity is left exactly as it is |
| Database.SeedIdempotent | tests/test_db.py:27-42 | seeding twice gives the same store as seeding once |
| Database.SeedKeepsWellFormed | src/db.py:21-66 | seeding keeps ids and names unique |
| Database.SeedKeepsReferences | src/db.py:21-66 | seeding keeps the foreign keys valid, and an empty activity table had no participants to keep |
| Database.SeedKeepsRegistryInvariants | src/db.py:21-66 | seeding keeps "no duplicate signup" always, and "within capacity" when the foreign keys were valid |
| Database.SeededRostersEmpty | src/db.py:57-66 | when the foreign keys were valid, every activity of a freshly seeded store has an empty roster |
| Database.OrphanRowsJoinChessClub | src/db.py:26-66 | seeding does not remove participant rows; on an empty activity table, the rows pointing at id 1 become the roster of Chess Club |
| Database.Store.constructor | src/db.py:24 | a newly created database has two empty tables |
| Database.Store.InitDb | src/db.py:21-66 | on any store obeying the schema's rules, the store after start-up is `SeedIfEmpty` of the store before; the schema's rules still hold, and so do valid foreign keys, "no duplicate signup" and, with valid foreign keys, "within capacity" |
| Database.Store.AddRows | src/db.py:57-64 | the loop leaves the store equal to adding the given rows one after another |
| Api.StatusCode | src/app.py:71-105 | "not found" is answered 404; the uncaught multiple-rows error surfaces as 500; every other error is 400 |
| Api.Detail | src/app.py:71-105 | each error's detail text contains the words the clients check for: "Activity not found", "already signed up", "full" and "not signed up" |
| Api.Signup | src/app.py:64-87 | a refused signup leaves the store unchanged, and no signup touches the activity table |
| Api.Unregister | src/app.py:90-109 | a refused unregister leaves the store unchanged, and no unregister touches the activity table |
| Api.SignupOutcomes | src/app.py:70-87 | signup answers "not found" iff no activity has the name; "already signed up" iff the email is on the roster; "full" iff the email is not on the roster and a capacity exists and is reached (an absent capacity is never full); success carries "Signed up {email} for {name}" |
| Api.SignupAddsExactlyThatEmail | src/app.py:84-86 | a successful signup adds exactly that email to that activity's roster, and every other roster stays the same |
| Api.SignupKeepsWellFormed | src/app.py:84-86 | a signup keeps the ids of both tables and the names unique |
| Api.SignupKeepsReferences | src/app.py:84 | the new participant row points to an existing activity |
| Api.SignupKeepsNoDuplicates | src/app.py:76-78 | signup never registers an email twice for one activity |
| Api.SignupKeepsCapacity | src/app.py:80-82 | signup never takes an activity over its capacity |
| Api.UnregisterOutcomes | src/app.py:96-109 | unregister answers "not found" iff no activity has the name; "not signed up" iff the email is not on the roster; a server error iff the email is on the roster more than once; success carries "Unregistered {email} from {name}" |
| Api.UnregisterNeverMultipleRows | src/app.py:103 | without duplicate signups, unregister never meets more than one matching row |
| Api.UnregisterRemovesExactlyThatEmail | src/app.py:107-108 | a successful unregister removes one occurrence of the email from that activity's roster, the email is no longer on it, and every other roster stays the same |
| Api.UnregisterKeepsWellFormed | src/app.py:107 | deleting the row keeps the remaining ids unique |
| Api.UnregisterKeepsReferences | src/app.py:107 | deleting the row keeps the foreign keys valid |
| Api.UnregisterKeepsNoDuplicates | src/app.py:107 | deleting the row keeps "no email twice in one activity" |
| Api.UnregisterKeepsCapacity | src/app.py:107 | deleting the row keeps every activity within its capacity |
| Api.GetActivities | src/app.py:45-61 | the listing has one entry per activity name, holding that activity's description, schedule, capacity and, as a multiset, its participants' emails |
| Api.SignupForActivity | src/app.py:64-87 | the store after the request and the answer are exactly `Signup` of the store before, and the invariants still hold |
| Api.UnregisterFromActivity | src/app.py:90-109 | the store after the request and the answer are exactly `Unregister` of the store before, and the invariants still hold |
| Scenarios.SignupEach | tests/test_api.py:140-156 | a run of signups gives one answer per email and leaves the activity table alone |
| Scenarios.SignupRowIsOnlyMatch | src/app.py:100-103 | after a successful signup, the new row is the only row the unregister query matches |
| Scenarios.SignupThenUnregisterRestores | tests/test_api.py:89-110 | signing an email up and then unregistering it restores exactly the previous store, and the unregister succeeds |
| Scenarios.SignupAgainAfterUnregister | tests/test_api.py:89-110 | after signup and unregister, signing up again gives the same answer and store as the first time |
| Scenarios.SecondSignupRefused | tests/test_api.py:50-67 | repeating a successful signup is refused as "already signed up" and the roster keeps the one added entry |
| Scenarios.NextSignupSucceeds | src/app.py:76-87 | a new email succeeds on an activity below its capacity, and the roster grows by that email |
| Scenarios.SignupEachKeepsWellFormed | src/app.py:84-86 | any run of signups keeps the schema's rules |
| Scenarios.SignupsStep | src/app.py:76-87 | a run of signups that has succeeded on distinct emails, and holds exactly them, still does so after one more new email below capacity |
| Scenarios.SignupsWithinCapacitySucceed | tests/test_api.py:140-156 | distinct emails signed up to an empty activity, no more than its capacity, all succeed, and the roster then holds exactly those emails |
| Scenarios.CapacityReachedExactly | tests/test_api.py:70-86 | with capacity N and an empty roster, N distinct signups succeed and one more new email is answered "full" |
| Scenarios.SeededChessClubFillsAtTwelve | tests/test_api.py:70-86 | in a freshly seeded store, twelve distinct students fill Chess Club and a thirteenth is answered "full" |
| Scenarios.SeededChessClubThirteenthAnswer | tests/test_api.py:80-86 | the thirteenth Chess Club signup in a freshly seeded store is answered with status 400 and a detail containing "full" |
| Scenarios.SameEmailSeveralActivities | tests/test_api.py:159-180 | one email can sign up for two different activities and is then on both rosters |

## Left out

- Search and filtering of activities: not part of the modelled endpoints.
- The root redirect to `/static/index.html` and the static file mount: routing only, no state.
- The lifespan hook: it only calls `init_db`, which `Database.Store.InitDb` models.
- Engine creation, the SQLite file, sessions, commits and rollbacks: I/O. A request is modelled as one atomic step on a `Store`.
- Concurrent requests and the races between the check and the insert: the model is sequential.
- The frontend and the test fixtures: not part of the service.
- Email validation: the code does none, so any string is accepted.
- Models.NewActivityId, Models.NewParticipantId: ids are unbounded integers. Once the largest rowid reaches 2^63 - 1, SQLite instead picks an unused rowid at random, or fails when none is found. The model does not capture that, so its ids are always the largest plus one.
- Api.Detail: states only that each text contains the words the clients look for, not that the texts are pairwise distinct.
- Api.GetActivities: states the participants of each activity as a multiset, because the order in which the relationship loads rows is not promised.
